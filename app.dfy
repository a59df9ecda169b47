/**
 * The chat front end of src/app.py: the cache helpers, the query rewriter's
 * prompt, and the per-browser session state that the selection page and the
 * chat page update on each run of the script.
 *
 * SHA-256, the vector search and the language model are parameters: the
 * model says what is hashed, what is searched and what the model is asked,
 * and what the session then holds.
 */
module ChatApp {
  import opened PyText

  /** `COURSE_COLLECTIONS`: the courses offered and the collection searched for each. */
  const CourseCollections: map<string, string> := map["F21CA" := "HWU_MACS_F21CA", "F21NL" := "HWU_MACS_F21NL"]

  datatype Role = User | Assistant

  function RoleName(r: Role): string {
    match r
    case User => "user"
    case Assistant => "assistant"
  }

  /** A chat message `{"role": ..., "content": ...}`. */
  datatype Message = Message(role: Role, content: string)

  /** `chat_history[-4:]`: the last four messages, or all of them when there are fewer. */
  function Recent(history: seq<Message>): seq<Message> {
    if |history| <= 4 then history else history[|history| - 4..]
  }

  /** The window holds at most four messages, the newest ones, and a new message slides it along. */
  lemma RecentWindow(history: seq<Message>, m: Message)
    ensures |Recent(history)| == (if |history| < 4 then |history| else 4)
    ensures Recent(history) == history[|history| - |Recent(history)|..]
    ensures Recent(history + [m]) == (if |history| < 4 then history + [m] else Recent(history)[1..] + [m])
  {
    var h := history + [m];
    if |history| >= 4 {
      assert h[|h| - 4..] == history[|history| - 3..] + [m];
      assert Recent(history)[1..] == history[|history| - 3..];
    }
  }

  /** Only the newest four messages matter: older ones can be anything. */
  lemma RecentIgnoresOlder(older: seq<Message>, newer: seq<Message>)
    requires |newer| >= 4
    ensures Recent(older + newer) == Recent(newer)
  {
    var h := older + newer;
    assert h[|h| - 4..] == newer[|newer| - 4..];
  }

  /** `"".join(f"{m['role']}{m['content']}" for m in chat_history[-4:])` */
  function KeyHistory(history: seq<Message>): string {
    var r := Recent(history);
    Join(seq(|r|, i requires 0 <= i < |r| => RoleName(r[i].role) + r[i].content), "")
  }

  /** `get_cache_key(user_query, chat_history, course_id)`; `sha256` hashes a string to its hex digest. */
  function GetCacheKey(userQuery: string, history: seq<Message>, courseId: string, sha256: string -> string): string {
    sha256(userQuery + KeyHistory(history))
  }

  /**
   * The key does not depend on the course, although its documentation says it
   * does, and it depends on the history only through the newest four messages.
   */
  lemma CacheKeyInputs(q: string, h1: seq<Message>, h2: seq<Message>, c1: string, c2: string, sha256: string -> string)
    requires Recent(h1) == Recent(h2)
    ensures GetCacheKey(q, h1, c1, sha256) == GetCacheKey(q, h2, c2, sha256)
  {
  }

  /**
   * The query and the history are concatenated without a separator, so a
   * different query and history can give the same key whatever the hash.
   */
  lemma CacheKeyCollision(course: string, sha256: string -> string)
    ensures GetCacheKey("quserhi", [], course, sha256) == GetCacheKey("q", [Message(User, "hi")], course, sha256)
  {
    var h := [Message(User, "hi")];
    assert Recent(h) == h;
    assert RoleName(h[0].role) + h[0].content == "userhi";
    assert KeyHistory(h) == "userhi";
    assert KeyHistory([]) == "";
    assert "quserhi" + KeyHistory([]) == "q" + KeyHistory(h);
  }

  /** The fixed instructions that open the rewriting prompt. */
  const RewriteInstructions: string :=
    "You are a query rewriter. The user may ask follow-up questions. "
    + "Rewrite the latest user query into a fully self-contained question "
    + "that can be understood without conversation history.\n\n"

  /** The newest four messages as `role: content` lines. */
  function RewriteHistory(history: seq<Message>): string {
    var r := Recent(history);
    Join(seq(|r|, i requires 0 <= i < |r| => RoleName(r[i].role) + ": " + r[i].content), "\n")
  }

  /** The prompt `rewrite_query` sends to the language model. */
  function RewritePrompt(userQuery: string, history: seq<Message>): string {
    RewriteInstructions + "Conversation so far:\n" + RewriteHistory(history) + "\n\nUser query: " + userQuery + "\nRewritten query:"
  }

  /** `rewrite_query(user_query, chat_history, llm)`: the model's reply, stripped. */
  function RewriteQuery(userQuery: string, history: seq<Message>, llm: string -> string): (r: string)
    ensures Stripped(r)
  {
    Strip(llm(RewritePrompt(userQuery, history)))
  }

  /**
   * The rewriting prompt shows one line per recent message and ends with the
   * query; with four or more messages, only the newest four are shown.
   */
  lemma {:induction false} RewritePromptShape(userQuery: string, older: seq<Message>, newer: seq<Message>, llm: string -> string)
    requires |newer| >= 4
    ensures var p := RewritePrompt(userQuery, older + newer);
      && p == RewritePrompt(userQuery, newer)
      && p[|p| - |userQuery| - 17..] == userQuery + "\nRewritten query:"
    ensures RewriteQuery(userQuery, older + newer, llm) == RewriteQuery(userQuery, newer, llm)
  {
    RecentIgnoresOlder(older, newer);
    var p := RewritePrompt(userQuery, newer);
    var front := RewriteInstructions + "Conversation so far:\n" + RewriteHistory(newer) + "\n\nUser query: ";
    assert p == front + (userQuery + "\nRewritten query:");
    assert |"\nRewritten query:"| == 17;
  }

  /** `st.session_state[cache_name].get(key, None)` */
  function Lookup(cache: map<string, seq<string>>, key: string): Option<seq<string>> {
    if key in cache then Some(cache[key]) else None
  }

  /** What the cached search yields: the context chunks, the new cache, and whether the database was searched. */
  datatype CachedSearchResult = CachedSearchResult(context: seq<string>, cache: map<string, seq<string>>, searched: bool)

  /**
   * Lines 113-130: a stored list that is not empty is reused; otherwise the
   * search (the query embedding and `client.search`) runs, and what it
   * `found` is used and stored, even when it is empty.  A search that raises
   * leaves the cache as it was.
   */
  function CachedSearch(cache: map<string, seq<string>>, key: string, found: Outcome<seq<string>>): Outcome<CachedSearchResult> {
    var cached := Lookup(cache, key);
    if cached.Some? && cached.value != [] then Returned(CachedSearchResult(cached.value, cache, false))
    else
      match found
      case Raised(e) => Raised(e)
      case Returned(f) => Returned(CachedSearchResult(f, cache[key := f], true))
  }

  /**
   * The search runs exactly when the key is absent or maps to an empty list,
   * and only then can its exception surface; afterwards the key maps to the
   * context used and every other entry is as before.
   */
  lemma CachedSearchFacts(cache: map<string, seq<string>>, key: string, found: Outcome<seq<string>>)
    ensures var r := CachedSearch(cache, key, found);
      var hit := key in cache && cache[key] != [];
      && (r.Raised? <==> !hit && found.Raised?)
      && (r.Returned? ==>
            && (r.value.searched <==> !hit)
            && (r.value.searched ==> r.value.context == found.value)
            && (!r.value.searched ==> r.value.context == cache[key])
            && key in r.value.cache && r.value.cache[key] == r.value.context
            && r.value.cache.Keys == cache.Keys + {key}
            && (forall k :: k in cache && k != key ==> r.value.cache[k] == cache[k]))
  {
  }

  /**
   * Repeating a query: the second lookup hits exactly when the first one left
   * a non-empty list, and then returns the same context without searching;
   * a search that found nothing is repeated every time.
   */
  lemma SearchMemoised(cache: map<string, seq<string>>, key: string, found1: seq<string>, found2: Outcome<seq<string>>)
    ensures var r1 := CachedSearch(cache, key, Returned(found1));
      var r2 := CachedSearch(r1.value.cache, key, found2);
      && r1.Returned?
      && (r1.value.context != [] ==> r2 == Returned(CachedSearchResult(r1.value.context, r1.value.cache, false)))
      && (r1.value.context == [] ==> r2.Raised? || r2.value.searched)
  {
  }

  datatype View = Selection | Chat

  /** The `st.session_state` entries the script initialises. */
  datatype Field = CurrentView | SelectedCourseId | Messages | RewriteCache | SearchCache

  const AllFields: set<Field> := {CurrentView, SelectedCourseId, Messages, RewriteCache, SearchCache}

  /** The two caches `get_from_cache` and `set_cache` take by name. */
  datatype CacheName = RewriteCacheName | SearchCacheName

  function CacheField(name: CacheName): Field {
    match name
    case RewriteCacheName => RewriteCache
    case SearchCacheName => SearchCache
  }

  /** The values of the session entries. */
  datatype Session = Session(view: View, courseId: Option<string>, messages: seq<Message>,
                             rewriteCache: map<string, seq<string>>, searchCache: map<string, seq<string>>)

  /** Lines 63-73: each entry missing from `present` gets its default; the others keep their value. */
  function Initialized(present: set<Field>, s: Session): Session {
    Session(if CurrentView in present then s.view else Selection,
            if SelectedCourseId in present then s.courseId else None,
            if Messages in present then s.messages else [],
            if RewriteCache in present then s.rewriteCache else map[],
            if SearchCache in present then s.searchCache else map[])
  }

  /** A new session starts on the selection page with nothing cached; a later run changes nothing. */
  lemma InitializedFacts(present: set<Field>, s: Session)
    ensures Initialized({}, s) == Session(Selection, None, [], map[], map[])
    ensures Initialized(AllFields, s) == s
    ensures Initialized(AllFields, Initialized(present, s)) == Initialized(present, s)
  {
  }

  /** The session invariant: on the chat page an offered course is selected. */
  predicate Valid(s: Session) {
    s.view == Chat ==> s.courseId.Some? && s.courseId.value in CourseCollections
  }

  /** Lines 82-85: "Start Chat" selects the course, clears the conversation and opens the chat page. */
  function StartChatNext(s: Session, course: string): Session {
    s.(courseId := Some(course), messages := [], view := Chat)
  }

  /** Lines 94-96: "Change Course" returns to the selection page and keeps everything else. */
  function ChangeCourseNext(s: Session): Session {
    s.(view := Selection)
  }

  /**
   * The outside world the chat page talks to: `sha256` (hex digest);
   * `rewrite(prompt)`, the language model asked the rewriting prompt alone;
   * `search(collection, query)`, the query embedding and the `context` of
   * the five nearest rows; and `answer(systemPrompt, history)`, the language
   * model's reply to the conversation.  Each of the last three either
   * returns or raises (a timeout, a connection error).
   */
  datatype Services = Services(sha256: string -> string, rewrite: string -> Outcome<string>,
                               search: (string, string) -> Outcome<seq<string>>,
                               answer: (string, seq<Message>) -> Outcome<string>, instructions: string)

  /** The system prompt of lines 134-150: the instructions, then the course, the query and the context. */
  function SystemPrompt(instructions: string, course: string, prompt: string, context: string): string {
    instructions + "Course: " + course + "\nOriginal query: " + prompt + "\nCONTEXT:\n" + context
  }

  /** The system prompt ends with the retrieved context, after the course and the query. */
  lemma SystemPromptEndsWithContext(instructions: string, course: string, prompt: string, context: string)
    ensures var p := SystemPrompt(instructions, course, prompt, context);
      |p| >= |context| && p[|p| - |context|..] == context
  {
    var p := SystemPrompt(instructions, course, prompt, context);
    var front := instructions + "Course: " + course + "\nOriginal query: " + prompt + "\nCONTEXT:\n";
    assert p == front + context;
  }

  /**
   * Lines 103-163, one question on the chat page: an empty input does
   * nothing; otherwise the question is appended, the query is rewritten
   * (and the rewrite discarded), the context is found through the search
   * cache under `sha256(prompt + course)`, and the model's answer to the
   * system prompt and the conversation is appended.  A call that raises
   * ends the run there, and what was already written to the session stays.
   */
  function Submit(s: Session, prompt: string, sv: Services): Session
    requires s.courseId.Some? && s.courseId.value in CourseCollections
  {
    if prompt == "" then s
    else
      var course := s.courseId.value;
      var asked := s.messages + [Message(User, prompt)];
      if sv.rewrite(RewritePrompt(prompt, asked)).Raised? then s.(messages := asked)
      else
        match CachedSearch(s.searchCache, sv.sha256(prompt + course), sv.search(CourseCollections[course], prompt))
        case Raised(_) => s.(messages := asked)
        case Returned(r) =>
          match sv.answer(SystemPrompt(sv.instructions, course, prompt, Join(r.context, "\n")), asked)
          case Raised(_) => s.(messages := asked, searchCache := r.cache)
          case Returned(reply) => s.(messages := asked + [Message(Assistant, reply)], searchCache := r.cache)
  }

  /** No call made for the question raises: the rewrite, the search when the cache misses, and the answer. */
  predicate Answered(s: Session, prompt: string, sv: Services)
    requires s.courseId.Some? && s.courseId.value in CourseCollections
  {
    var course := s.courseId.value;
    var asked := s.messages + [Message(User, prompt)];
    var r := CachedSearch(s.searchCache, sv.sha256(prompt + course), sv.search(CourseCollections[course], prompt));
    prompt == "" ||
      (sv.rewrite(RewritePrompt(prompt, asked)).Returned? && r.Returned?
       && sv.answer(SystemPrompt(sv.instructions, course, prompt, Join(r.value.context, "\n")), asked).Returned?)
  }

  /** What the user does on one run of the script; a widget that is not on the current page cannot be used. */
  datatype Event = PressStartChat(course: string) | PressChangeCourse | EnterPrompt(prompt: string)

  function Apply(s: Session, e: Event, sv: Services): Session
    requires Valid(s)
  {
    match e
    case PressStartChat(c) => if s.view == Selection && c in CourseCollections then StartChatNext(s, c) else s
    case PressChangeCourse => if s.view == Chat then ChangeCourseNext(s) else s
    case EnterPrompt(p) => if s.view == Chat then Submit(s, p, sv) else s
  }

  /** Every run of the script keeps the session valid. */
  lemma ApplyValid(s: Session, e: Event, sv: Services)
    requires Valid(s)
    ensures Valid(Apply(s, e, sv))
  {
  }

  function Replay(s: Session, es: seq<Event>, sv: Services): Session
    requires Valid(s)
    decreases |es|
  {
    if es == [] then s
    else
      ApplyValid(s, es[0], sv);
      Replay(Apply(s, es[0], sv), es[1..], sv)
  }

  /**
   * Over any sequence of runs: the session stays valid, the rewrite cache is
   * never touched, no search-cache key is ever dropped, and a non-empty
   * cached result is never replaced.
   */
  lemma {:induction false} ReplayKeepsCaches(s: Session, es: seq<Event>, sv: Services)
    requires Valid(s)
    ensures var t := Replay(s, es, sv);
      && Valid(t)
      && t.rewriteCache == s.rewriteCache
      && s.searchCache.Keys <= t.searchCache.Keys
      && (forall k :: k in s.searchCache && s.searchCache[k] != [] ==> t.searchCache[k] == s.searchCache[k])
    decreases |es|
  {
    if es != [] {
      ApplyValid(s, es[0], sv);
      var s1 := Apply(s, es[0], sv);
      if es[0].EnterPrompt? && s.view == Chat && es[0].prompt != "" {
        var course := s.courseId.value;
        CachedSearchFacts(s.searchCache, sv.sha256(es[0].prompt + course), sv.search(CourseCollections[course], es[0].prompt));
        SubmitCaches(s, es[0].prompt, sv);
      }
      ReplayKeepsCaches(s1, es[1..], sv);
    }
  }

  /**
   * A question leaves the rewrite cache alone and either keeps the search
   * cache or replaces it by the cached search's new cache.
   */
  lemma SubmitCaches(s: Session, prompt: string, sv: Services)
    requires s.courseId.Some? && s.courseId.value in CourseCollections && prompt != ""
    ensures var t := Submit(s, prompt, sv);
      var course := s.courseId.value;
      var r := CachedSearch(s.searchCache, sv.sha256(prompt + course), sv.search(CourseCollections[course], prompt));
      && t.rewriteCache == s.rewriteCache
      && (t.searchCache == s.searchCache || (r.Returned? && t.searchCache == r.value.cache))
  {
  }

  /**
   * A question on the chat page keeps the page and the course and appends
   * the question; the answer follows it exactly when no call raised.  An
   * empty input adds nothing.
   */
  lemma SubmitMessages(s: Session, prompt: string, sv: Services)
    requires s.courseId.Some? && s.courseId.value in CourseCollections
    ensures var t := Submit(s, prompt, sv);
      && t.view == s.view && t.courseId == s.courseId && t.rewriteCache == s.rewriteCache
      && (prompt == "" ==> t == s)
      && (prompt != "" ==>
            && |t.messages| == |s.messages| + (if Answered(s, prompt, sv) then 2 else 1)
            && t.messages[..|s.messages|] == s.messages && t.messages[|s.messages|] == Message(User, prompt)
            && (Answered(s, prompt, sv) ==> t.messages[|s.messages| + 1].role == Assistant))
  {
  }

  /**
   * A failed answer keeps what the search stored: the question stays
   * unanswered, and the search result is cached for the next try.
   */
  lemma FailedAnswerKeepsSearch(s: Session, prompt: string, sv: Services)
    requires s.courseId.Some? && s.courseId.value in CourseCollections && prompt != ""
    ensures var course := s.courseId.value;
      var asked := s.messages + [Message(User, prompt)];
      var r := CachedSearch(s.searchCache, sv.sha256(prompt + course), sv.search(CourseCollections[course], prompt));
      var t := Submit(s, prompt, sv);
      (sv.rewrite(RewritePrompt(prompt, asked)).Returned? && r.Returned? && !Answered(s, prompt, sv)) ==>
        t.messages == asked && t.searchCache == r.value.cache
  {
  }

  /**
   * Starting a chat forgets the previous conversation but not the caches, so
   * a question asked again about the same course is answered from the cache
   * once its search has returned.
   */
  lemma {:induction false} CacheSurvivesCourseChange(s: Session, course: string, prompt: string, sv: Services)
    requires Valid(s) && s.view == Chat && prompt != ""
    requires course in CourseCollections && s.courseId == Some(course)
    ensures var t := Replay(s, [EnterPrompt(prompt), PressChangeCourse, PressStartChat(course)], sv);
      && t.view == Chat && t.messages == []
      && t.searchCache == Submit(s, prompt, sv).searchCache
      && var key := sv.sha256(prompt + course);
         var asked := s.messages + [Message(User, prompt)];
         var r := CachedSearch(s.searchCache, key, sv.search(CourseCollections[course], prompt));
         (sv.rewrite(RewritePrompt(prompt, asked)).Returned? && r.Returned?) ==>
           key in t.searchCache && t.searchCache[key] == r.value.context
  {
    var key := sv.sha256(prompt + course);
    CachedSearchFacts(s.searchCache, key, sv.search(CourseCollections[course], prompt));
    var s1 := Apply(s, EnterPrompt(prompt), sv);
    assert s1 == Submit(s, prompt, sv);
    SubmitMessages(s, prompt, sv);
    var s2 := Apply(s1, PressChangeCourse, sv);
    var s3 := Apply(s2, PressStartChat(course), sv);
    var es := [EnterPrompt(prompt), PressChangeCourse, PressStartChat(course)];
    assert es[1..] == [PressChangeCourse, PressStartChat(course)];
    assert es[1..][1..] == [PressStartChat(course)];
    assert Replay(s, es, sv) == Replay(s1, es[1..], sv);
    assert Replay(s1, es[1..], sv) == Replay(s2, [PressStartChat(course)], sv);
    assert Replay(s2, [PressStartChat(course)], sv) == Replay(s3, [], sv);
  }

  /** `st.session_state` for one browser session: which entries exist, and their values. */
  class SessionState {
    var present: set<Field>
    var currentView: View
    var selectedCourseId: Option<string>
    var messages: seq<Message>
    var rewriteCache: map<string, seq<string>>
    var searchCache: map<string, seq<string>>

    function Snapshot(): Session
      reads this
    {
      Session(currentView, selectedCourseId, messages, rewriteCache, searchCache)
    }

    /** A new browser session: no entry exists yet. */
    constructor()
      ensures present == {}
    {
      present := {};
      currentView := Selection;
      selectedCourseId := None;
      messages := [];
      rewriteCache := map[];
      searchCache := map[];
    }

    /** Lines 63-73, run at the top of every run of the script. */
    method InitSessionState()
      modifies this
      ensures present == old(present) + AllFields
      ensures Snapshot() == Initialized(old(present), old(Snapshot()))
    {
      if CurrentView !in present {
        currentView := Selection;
      }
      if SelectedCourseId !in present {
        selectedCourseId := None;
      }
      if Messages !in present {
        messages := [];
      }
      if RewriteCache !in present {
        rewriteCache := map[];
      }
      if SearchCache !in present {
        searchCache := map[];
      }
      present := present + AllFields;
    }

    /** The cache `cache_name` names. */
    function CacheOf(name: CacheName): map<string, seq<string>>
      reads this
    {
      match name
      case RewriteCacheName => rewriteCache
      case SearchCacheName => searchCache
    }

    /** `get_from_cache(cache_name, key)`: the stored value, or `None` when the key is absent. */
    function GetFromCache(name: CacheName, key: string): (r: Option<seq<string>>)
      reads this
      requires CacheField(name) in present
      ensures r.Some? <==> key in CacheOf(name)
      ensures r.Some? ==> r.value == CacheOf(name)[key]
    {
      Lookup(CacheOf(name), key)
    }

    /**
     * `set_cache(cache_name, key, value)`: a following `get_from_cache` of
     * that key gives `value`; every other key of that cache, the other cache
     * and the rest of the session are unchanged.
     */
    method SetCache(name: CacheName, key: string, value: seq<string>)
      requires CacheField(name) in present
      modifies this
      ensures present == old(present)
      ensures GetFromCache(name, key) == Some(value)
      ensures CacheOf(name) == old(CacheOf(name))[key := value]
      ensures forall k :: k != key ==> GetFromCache(name, k) == old(GetFromCache(name, k))
      ensures name == SearchCacheName ==> Snapshot() == old(Snapshot()).(searchCache := searchCache)
      ensures name == RewriteCacheName ==> Snapshot() == old(Snapshot()).(rewriteCache := rewriteCache)
    {
      match name
      case RewriteCacheName => rewriteCache := rewriteCache[key := value];
      case SearchCacheName => searchCache := searchCache[key := value];
    }

    /** The "Start Chat" button of the selection page, with the course chosen in the select box. */
    method StartChat(course: string)
      requires AllFields <= present && currentView == Selection && course in CourseCollections
      modifies this
      ensures present == old(present)
      ensures Snapshot() == StartChatNext(old(Snapshot()), course)
    {
      selectedCourseId := Some(course);
      messages := [];
      currentView := Chat;
    }

    /** The "Change Course" button of the chat page. */
    method ChangeCourse()
      requires AllFields <= present && currentView == Chat
      modifies this
      ensures present == old(present)
      ensures Snapshot() == ChangeCourseNext(old(Snapshot()))
    {
      currentView := Selection;
    }

    /**
     * A question entered on the chat page; the search runs only when the
     * cache has nothing for it.  The exception of a call that raises is
     * returned, with the session as the run left it.
     */
    method SubmitPrompt(prompt: string, sv: Services) returns (out: Outcome<()>)
      requires AllFields <= present && currentView == Chat
      requires selectedCourseId.Some? && selectedCourseId.value in CourseCollections
      modifies this
      ensures present == old(present)
      ensures Snapshot() == Submit(old(Snapshot()), prompt, sv)
      ensures out.Returned? <==> Answered(old(Snapshot()), prompt, sv)
    {
      if prompt == "" {
        return Returned(());
      }
      var course := selectedCourseId.value;
      messages := messages + [Message(User, prompt)];
      var rewritten := sv.rewrite(RewritePrompt(prompt, messages));
      if rewritten.Raised? {
        return Raised(rewritten.error);
      }
      var key := sv.sha256(prompt + course);
      var cached := GetFromCache(SearchCacheName, key);
      var context: seq<string>;
      if cached.Some? && cached.value != [] {
        context := cached.value;
      } else {
        var found := sv.search(CourseCollections[course], prompt);
        if found.Raised? {
          return Raised(found.error);
        }
        context := found.value;
        SetCache(SearchCacheName, key, context);
      }
      var fullContext := Join(context, "\n");
      var reply := sv.answer(SystemPrompt(sv.instructions, course, prompt, fullContext), messages);
      if reply.Raised? {
        return Raised(reply.error);
      }
      messages := messages + [Message(Assistant, reply.value)];
      return Returned(());
    }
  }
}
