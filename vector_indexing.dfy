/**
 * The embedding records read back from JSON and the rows handed to the
 * vector database, shared by the two versions of `insert_embeddings`
 * (src/3_vector_indexing.py and src/vector_indexing.py).
 */
module EmbeddingRows {
  import opened PyText

  /** An embedding vector, kept as the list of numbers JSON gives. */
  type Vector = seq<real>

  /**
   * The record's `metadata` entry: missing, present but not an object (a
   * JSON `null`, on which `.get` raises `AttributeError`), or an object
   * whose `course_id` may be missing or `null`.
   */
  datatype MetadataField = Missing | NotAnObject | Object(courseId: Option<string>)

  /** One JSON record of the embeddings file; `None` is a missing key or `null`. */
  datatype JsonRecord = JsonRecord(text: Option<string>, content: Option<string>,
                                   embedding: Option<Vector>, metadata: MetadataField)

  /** A row inserted into the collection: its `context`, `embedding` and `course_id`. */
  datatype Row = Row(context: Option<string>, embedding: Vector, courseId: Option<string>)

  /** One `client.insert` call: the collection and the rows it was given. */
  datatype Insert = Insert(collection: string, rows: seq<Row>)

  /** `rec.get('text') or rec.get('content')`: the text when it is a non-empty string, else the content. */
  function Context(rec: JsonRecord): Option<string> {
    if rec.text.Some? && rec.text.value != "" then rec.text else rec.content
  }

  /** `rec.get('metadata', {}).get('course_id')` */
  function CourseIdOf(m: MetadataField): Outcome<Option<string>> {
    match m
    case Missing => Returned(None)
    case NotAnObject => Raised("AttributeError")
    case Object(c) => Returned(c)
  }

  /** The positions below `n` whose flag is set, in increasing order. */
  function Selected(flags: seq<bool>, n: nat): (ps: seq<nat>)
    requires n <= |flags|
    ensures forall k :: 0 <= k < |ps| ==> ps[k] < n && flags[ps[k]]
  {
    if n == 0 then []
    else Selected(flags, n - 1) + (if flags[n - 1] then [n - 1] else [])
  }

  /** The selected positions are exactly the flagged ones below `n`, each once, in increasing order. */
  lemma {:induction false} SelectedFacts(flags: seq<bool>, n: nat)
    requires n <= |flags|
    ensures var ps := Selected(flags, n);
      && |ps| <= n
      && (forall k, l :: 0 <= k < l < |ps| ==> ps[k] < ps[l])
      && (forall i :: 0 <= i < n ==> (flags[i] <==> i in ps))
  {
    if n > 0 {
      SelectedFacts(flags, n - 1);
    }
  }

  /** One more position is selected exactly when its flag is set. */
  lemma SelectedStep(flags: seq<bool>, n: nat)
    requires n < |flags|
    ensures Selected(flags, n + 1) == Selected(flags, n) + (if flags[n] then [n] else [])
  {
  }

  /**
   * The database client: the log of the insert calls made on it, oldest
   * first.  Creating, dropping and searching collections are not part of
   * this model.
   */
  class MilvusClient {
    var inserts: seq<Insert>

    constructor()
      ensures inserts == []
    {
      inserts := [];
    }

    /** `client.insert(collection_name=collection, data=rows)` */
    method InsertRows(collection: string, rows: seq<Row>)
      modifies this
      ensures inserts == old(inserts) + [Insert(collection, rows)]
    {
      inserts := inserts + [Insert(collection, rows)];
    }
  }
}

/**
 * `insert_embeddings` of src/3_vector_indexing.py: a record becomes a row
 * only when it has both an embedding and a course id, and the rows are
 * inserted only when there is at least one.
 */
module CourseVectorIndexing {
  import opened PyText
  import opened EmbeddingRows

  /** The record has an embedding and a `metadata.course_id`. */
  predicate Complete(rec: JsonRecord) {
    rec.embedding.Some? && rec.metadata.Object? && rec.metadata.courseId.Some?
  }

  /** Reading the course id raises: `metadata` is there but is not an object. */
  predicate Breaks(rec: JsonRecord) {
    rec.metadata.NotAnObject?
  }

  /** The row a complete record becomes. */
  function Project(rec: JsonRecord): Row
    requires Complete(rec)
  {
    Row(Context(rec), rec.embedding.value, rec.metadata.courseId)
  }

  function Kept(records: seq<JsonRecord>): (flags: seq<bool>)
    ensures |flags| == |records|
    ensures forall i :: 0 <= i < |records| ==> flags[i] == Complete(records[i])
  {
    seq(|records|, i requires 0 <= i < |records| => Complete(records[i]))
  }

  /** The rows of the complete records among the first `n`, in record order. */
  function Rows(records: seq<JsonRecord>, n: nat): seq<Row>
    requires n <= |records|
  {
    var ps := Selected(Kept(records), n);
    seq(|ps|, k requires 0 <= k < |ps| => Project(records[ps[k]]))
  }

  /** What the loop gives: `AttributeError` if some record's metadata is not an object, else the rows. */
  function Collected(records: seq<JsonRecord>): Outcome<seq<Row>> {
    if exists i :: 0 <= i < |records| && Breaks(records[i]) then Raised("AttributeError")
    else Returned(Rows(records, |records|))
  }

  /** One more record adds its row exactly when it is complete. */
  lemma RowsStep(records: seq<JsonRecord>, n: nat)
    requires n < |records|
    ensures Rows(records, n + 1) == Rows(records, n) + (if Complete(records[n]) then [Project(records[n])] else [])
  {
    SelectedStep(Kept(records), n);
  }

  /** The loop of lines 51-63. */
  method CollectRows(records: seq<JsonRecord>) returns (out: Outcome<seq<Row>>)
    ensures out == Collected(records)
  {
    var data: seq<Row> := [];
    for i := 0 to |records|
      invariant data == Rows(records, i)
      invariant forall j :: 0 <= j < i ==> !Breaks(records[j])
    {
      var rec := records[i];
      var text := Context(rec);
      var embedding := rec.embedding;
      var courseId := CourseIdOf(rec.metadata);
      if courseId.Raised? {
        return Raised(courseId.error);
      }
      RowsStep(records, i);
      if embedding.None? || courseId.value.None? {
        continue;
      }
      data := data + [Row(text, embedding.value, courseId.value)];
    }
    return Returned(data);
  }

  /**
   * The insert calls `insert_embeddings` makes: none when the file is
   * missing or the loop raises, one when some row was kept, none otherwise.
   */
  function Inserts(file: Option<seq<JsonRecord>>, collection: string): Outcome<seq<Insert>> {
    if file.None? then Returned([])
    else match Collected(file.value)
      case Raised(e) => Raised(e)
      case Returned(rows) => Returned(if rows != [] then [Insert(collection, rows)] else [])
  }

  /** `insert_embeddings(client, input_file, collection_name)`; `file` is `None` when no such file exists. */
  method InsertEmbeddings(client: MilvusClient, file: Option<seq<JsonRecord>>, collection: string)
    returns (out: Outcome<()>)
    modifies client
    ensures var r := Inserts(file, collection);
      && (r.Raised? ==> out == Raised(r.error) && client.inserts == old(client.inserts))
      && (r.Returned? ==> out == Returned(()) && client.inserts == old(client.inserts) + r.value)
  {
    if file.None? {
      return Returned(());
    }
    var data := CollectRows(file.value);
    if data.Raised? {
      return Raised(data.error);
    }
    if data.value != [] {
      client.InsertRows(collection, data.value);
    }
    return Returned(());
  }

  /** The loop raises exactly when some record's metadata is there but is not an object. */
  lemma CollectedRaisesIff(records: seq<JsonRecord>)
    ensures Collected(records).Raised? <==> exists i :: 0 <= i < |records| && records[i].metadata.NotAnObject?
  {
  }

  /**
   * The rows are the complete records, projected, in record order: a record
   * gives a row exactly when it has an embedding and a course id, and each
   * row carries that record's context, embedding and course id.
   */
  lemma {:induction false} RowsAreCompleteRecords(records: seq<JsonRecord>)
    ensures var ps, rows := Selected(Kept(records), |records|), Rows(records, |records|);
      && |rows| == |ps| <= |records|
      && (forall k, l :: 0 <= k < l < |ps| ==> ps[k] < ps[l])
      && (forall i :: 0 <= i < |records| ==> (Complete(records[i]) <==> i in ps))
      && (forall k :: 0 <= k < |rows| ==>
            && rows[k].courseId.Some?
            && rows[k].context == Context(records[ps[k]])
            && Some(rows[k].embedding) == records[ps[k]].embedding
            && rows[k].courseId == records[ps[k]].metadata.courseId)
  {
    SelectedFacts(Kept(records), |records|);
  }

  /** A missing file inserts nothing; otherwise, unless the loop raises, exactly one insert happens iff some row was kept. */
  lemma InsertOnlyWithRows(file: Option<seq<JsonRecord>>, collection: string)
    ensures file.None? ==> Inserts(file, collection) == Returned([])
    ensures file.Some? && Collected(file.value).Returned? ==>
      var rows := Collected(file.value).value;
      && Inserts(file, collection).Returned?
      && |Inserts(file, collection).value| == (if rows == [] then 0 else 1)
      && (rows != [] ==> Inserts(file, collection).value[0] == Insert(collection, rows))
  {
  }

  /** No record without an embedding or without a course id ever reaches the database. */
  lemma {:induction false} InsertedRowsComplete(file: Option<seq<JsonRecord>>, collection: string)
    requires Inserts(file, collection).Returned?
    ensures forall j, k :: 0 <= j < |Inserts(file, collection).value| && 0 <= k < |Inserts(file, collection).value[j].rows| ==>
      Inserts(file, collection).value[j].rows[k].courseId.Some?
  {
    if file.Some? {
      RowsAreCompleteRecords(file.value);
    }
  }
}

/**
 * `insert_embeddings` of src/vector_indexing.py: a record becomes a row
 * whenever it has an embedding (its course id may be missing), the rows are
 * inserted even when there are none, and a missing file raises.
 */
module VectorIndexing {
  import opened PyText
  import opened EmbeddingRows
  import CourseVectorIndexing

  predicate HasEmbedding(rec: JsonRecord) {
    rec.embedding.Some?
  }

  /** Reading the course id raises; it is read only for records with an embedding. */
  predicate Breaks(rec: JsonRecord) {
    rec.embedding.Some? && rec.metadata.NotAnObject?
  }

  /** The row a record with an embedding becomes; its course id is `None` when metadata is missing. */
  function Project(rec: JsonRecord): Row
    requires HasEmbedding(rec) && !rec.metadata.NotAnObject?
  {
    Row(Context(rec), rec.embedding.value, CourseIdOf(rec.metadata).value)
  }

  function Kept(records: seq<JsonRecord>): (flags: seq<bool>)
    ensures |flags| == |records|
    ensures forall i :: 0 <= i < |records| ==> flags[i] == HasEmbedding(records[i])
  {
    seq(|records|, i requires 0 <= i < |records| => HasEmbedding(records[i]))
  }

  /** No record with an embedding among the first `n` has a metadata entry that is not an object. */
  predicate Readable(records: seq<JsonRecord>, n: nat)
    requires n <= |records|
  {
    forall i :: 0 <= i < n ==> !Breaks(records[i])
  }

  /** The rows of the records with an embedding among the first `n`, in record order. */
  function Rows(records: seq<JsonRecord>, n: nat): seq<Row>
    requires n <= |records| && Readable(records, n)
  {
    var ps := Selected(Kept(records), n);
    seq(|ps|, k requires 0 <= k < |ps| => Project(records[ps[k]]))
  }

  /** What the loop gives: `AttributeError` if a record with an embedding has unreadable metadata, else the rows. */
  function Collected(records: seq<JsonRecord>): Outcome<seq<Row>> {
    if !Readable(records, |records|) then Raised("AttributeError")
    else Returned(Rows(records, |records|))
  }

  lemma RowsStep(records: seq<JsonRecord>, n: nat)
    requires n < |records| && Readable(records, n + 1)
    ensures Rows(records, n + 1) == Rows(records, n) + (if HasEmbedding(records[n]) then [Project(records[n])] else [])
  {
    SelectedStep(Kept(records), n);
  }

  /** The loop of lines 43-53. */
  method CollectRows(records: seq<JsonRecord>) returns (out: Outcome<seq<Row>>)
    ensures out == Collected(records)
  {
    var data: seq<Row> := [];
    for i := 0 to |records|
      invariant Readable(records, i)
      invariant data == Rows(records, i)
    {
      var rec := records[i];
      var text := Context(rec);
      var embedding := rec.embedding;
      if embedding.None? {
        RowsStep(records, i);
        continue;
      }
      var courseId := CourseIdOf(rec.metadata);
      if courseId.Raised? {
        return Raised(courseId.error);
      }
      RowsStep(records, i);
      data := data + [Row(text, embedding.value, courseId.value)];
    }
    return Returned(data);
  }

  /** The insert calls: a missing file raises before any; otherwise one insert, even of no rows. */
  function Inserts(file: Option<seq<JsonRecord>>, collection: string): Outcome<seq<Insert>> {
    if file.None? then Raised("FileNotFoundError")
    else match Collected(file.value)
      case Raised(e) => Raised(e)
      case Returned(rows) => Returned([Insert(collection, rows)])
  }

  /** `insert_embeddings(client, input_file, collection_name)`; `file` is `None` when no such file exists. */
  method InsertEmbeddings(client: MilvusClient, file: Option<seq<JsonRecord>>, collection: string)
    returns (out: Outcome<()>)
    modifies client
    ensures var r := Inserts(file, collection);
      && (r.Raised? ==> out == Raised(r.error) && client.inserts == old(client.inserts))
      && (r.Returned? ==> out == Returned(()) && client.inserts == old(client.inserts) + r.value)
  {
    if file.None? {
      return Raised("FileNotFoundError");
    }
    var data := CollectRows(file.value);
    if data.Raised? {
      return Raised(data.error);
    }
    client.InsertRows(collection, data.value);
    return Returned(());
  }

  /**
   * The rows are the records with an embedding, projected, in record order;
   * a row's course id is the record's, `None` when the metadata is missing.
   */
  lemma {:induction false} RowsAreEmbeddedRecords(records: seq<JsonRecord>)
    requires Readable(records, |records|)
    ensures var ps, rows := Selected(Kept(records), |records|), Rows(records, |records|);
      && |rows| == |ps| <= |records|
      && (forall k, l :: 0 <= k < l < |ps| ==> ps[k] < ps[l])
      && (forall i :: 0 <= i < |records| ==> (records[i].embedding.Some? <==> i in ps))
      && (forall k :: 0 <= k < |rows| ==>
            && rows[k].context == Context(records[ps[k]])
            && Some(rows[k].embedding) == records[ps[k]].embedding
            && (records[ps[k]].metadata.Missing? ==> rows[k].courseId.None?))
  {
    SelectedFacts(Kept(records), |records|);
  }

  /** Unless reading raises, exactly one insert happens, even when no row was kept. */
  lemma InsertUnconditional(file: Option<seq<JsonRecord>>, collection: string)
    ensures file.None? ==> Inserts(file, collection) == Raised("FileNotFoundError")
    ensures file.Some? && Collected(file.value).Returned? ==>
      Inserts(file, collection) == Returned([Insert(collection, Collected(file.value).value)])
  {
  }

  /**
   * Where every record has a metadata object with a course id, the two
   * versions agree on which records become rows and on the rows; they
   * differ only in what they insert when no row is kept.
   */
  lemma {:induction false} VersionsAgreeOnCompleteMetadata(records: seq<JsonRecord>)
    requires forall i :: 0 <= i < |records| ==> records[i].metadata.Object? && records[i].metadata.courseId.Some?
    ensures Collected(records).Returned? && CourseVectorIndexing.Collected(records).Returned?
    ensures Collected(records).value == CourseVectorIndexing.Collected(records).value
  {
    var n := |records|;
    assert Kept(records) == CourseVectorIndexing.Kept(records);
    var ps := Selected(Kept(records), n);
    assert Rows(records, n) == CourseVectorIndexing.Rows(records, n);
  }
}
