/**
 * The records the ingestion scripts write out: a piece of text and the
 * metadata dictionary attached to it.  The three metadata shapes are the
 * three dictionaries the scripts build (web-page chunks, PDF pages, PDF table
 * rows), each with exactly the keys the source gives it.
 */
module Records {
  import opened PyText

  datatype Metadata =
    | SiteMetadata(courseId: string, sourceUrl: string, chunkId: string, documentType: string)
    | PageMetadata(courseId: string, sourcePath: string, page: nat, documentType: string)
    | TableMetadata(courseId: string, sourcePath: string, documentType: string)

  datatype Record = Record(text: string, metadata: Metadata)

  /** `f"{course_id}_{i}"` */
  function ChunkId(courseId: string, i: nat): string {
    courseId + "_" + NatToString(i)
  }

  /** Two chunk ids of one course are equal only for the same index. */
  lemma ChunkIdInjective(courseId: string, i: nat, j: nat)
    requires ChunkId(courseId, i) == ChunkId(courseId, j)
    ensures i == j
  {
    var p := courseId + "_";
    assert ChunkId(courseId, i)[|p|..] == NatToString(i);
    assert ChunkId(courseId, j)[|p|..] == NatToString(j);
    NatToStringInjective(i, j);
  }

  /**
   * The list `create_data_records` builds from web-page chunks: record `i`
   * holds chunk `i` and the chunk id `<course>_<i>`.
   */
  function SiteRecords(url: string, chunks: seq<string>, courseId: string, docType: string): seq<Record> {
    seq(|chunks|, i requires 0 <= i < |chunks| =>
      Record(chunks[i], SiteMetadata(courseId, url, ChunkId(courseId, i), docType)))
  }

  /**
   * One record per chunk, in chunk order; all records share the course, the
   * URL and the document type, and no two records share a chunk id.
   */
  lemma SiteRecordsFacts(url: string, chunks: seq<string>, courseId: string, docType: string)
    ensures var rs := SiteRecords(url, chunks, courseId, docType);
      && |rs| == |chunks|
      && (forall i :: 0 <= i < |rs| ==>
            && rs[i].text == chunks[i] && rs[i].metadata.SiteMetadata?
            && rs[i].metadata.courseId == courseId && rs[i].metadata.sourceUrl == url
            && rs[i].metadata.documentType == docType)
      && (forall i, j :: 0 <= i < j < |rs| ==> rs[i].metadata.chunkId != rs[j].metadata.chunkId)
  {
    var rs := SiteRecords(url, chunks, courseId, docType);
    forall i, j | 0 <= i < j < |rs| ensures rs[i].metadata.chunkId != rs[j].metadata.chunkId {
      if rs[i].metadata.chunkId == rs[j].metadata.chunkId {
        ChunkIdInjective(courseId, i, j);
      }
    }
  }
}
