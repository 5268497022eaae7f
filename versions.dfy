/** next_version: the version number the next upload of a document gets. */
module Versions {
  import opened Wrappers
  import opened Documents

  /** The columns of a versions row that next_version reads. */
  datatype Version = Version(document: DocId, version: int)

  /**
   * SELECT MAX(version) ... WHERE document_id = doc: None (NULL) exactly
   * when the document has no versions; otherwise one of the document's
   * versions, and none is higher. MAX does not depend on row order, so the
   * scan runs from the newest row back.
   */
  function MaxVersion(versions: seq<Version>, doc: DocId): (m: Option<int>)
    ensures m.None? <==> forall i :: 0 <= i < |versions| ==> versions[i].document != doc
    ensures m.Some? ==> exists i :: 0 <= i < |versions| && versions[i] == Version(doc, m.value)
    ensures m.Some? ==> forall i :: 0 <= i < |versions| && versions[i].document == doc ==> versions[i].version <= m.value
  {
    if versions == [] then None
    else
      var n := |versions| - 1;
      var rest := MaxVersion(versions[..n], doc);
      var last := versions[n];
      assert forall i :: 0 <= i < n ==> versions[..n][i] == versions[i];
      if last.document != doc then rest
      else match rest
        case None => Some(last.version)
        case Some(m) => Some(if last.version > m then last.version else m)
  }

  /**
   * next_version(doc) = (max or 0) + 1: 1 for a document without versions,
   * otherwise one more than its highest version.
   */
  function NextVersion(versions: seq<Version>, doc: DocId): (n: int)
    ensures MaxVersion(versions, doc).None? ==> n == 1
    ensures MaxVersion(versions, doc).Some? ==> n == MaxVersion(versions, doc).value + 1
  {
    var m := MaxVersion(versions, doc);
    // Python's `v or 0`: NULL and 0 both count as 0
    (if m.Some? && m.value != 0 then m.value else 0) + 1
  }

  /**
   * next_version is above every version of the document; it is 1 for a
   * document without versions, and otherwise 1 or one more than one of
   * the document's versions.
   */
  lemma NextVersionBounds(versions: seq<Version>, doc: DocId)
    ensures forall i :: 0 <= i < |versions| && versions[i].document == doc ==> versions[i].version < NextVersion(versions, doc)
    ensures (forall i :: 0 <= i < |versions| ==> versions[i].document != doc) ==> NextVersion(versions, doc) == 1
    ensures NextVersion(versions, doc) == 1 || Version(doc, NextVersion(versions, doc) - 1) in versions
    ensures MaxVersion(versions, doc).Some? ==> NextVersion(versions, doc) == MaxVersion(versions, doc).value + 1
  {
    var m := MaxVersion(versions, doc);
    if m.Some? {
      var i :| 0 <= i < |versions| && versions[i] == Version(doc, m.value);
    }
  }

  /** Uploading version NextVersion(doc) of doc moves that document's next version up by one. */
  lemma AddingNextVersion(versions: seq<Version>, doc: DocId, n: int)
    requires n == NextVersion(versions, doc)
    ensures NextVersion(versions + [Version(doc, n)], doc) == n + 1
  {
    var vs := versions + [Version(doc, n)];
    assert vs[..|versions|] == versions;
  }

  /** Adding a version of one document leaves every other document's next version alone. */
  lemma AddingVersionOfOtherDocument(versions: seq<Version>, row: Version, doc: DocId)
    requires row.document != doc
    ensures MaxVersion(versions + [row], doc) == MaxVersion(versions, doc)
    ensures NextVersion(versions + [row], doc) == NextVersion(versions, doc)
  {
    assert (versions + [row])[..|versions|] == versions;
  }

  /** n uploads of one document, each numbered by NextVersion. */
  function Uploads(doc: DocId, n: nat): seq<Version>
  {
    if n == 0 then []
    else
      var earlier := Uploads(doc, n - 1);
      earlier + [Version(doc, NextVersion(earlier, doc))]
  }

  /** The n-th upload appends the version NextVersion gives after the earlier ones. */
  lemma UploadStep(doc: DocId, n: nat, earlier: seq<Version>)
    requires n > 0 && earlier == Uploads(doc, n - 1) && NextVersion(earlier, doc) == n
    ensures Uploads(doc, n) == earlier + [Version(doc, n)]
  {
  }

  /** Versions numbered by NextVersion count from 1: after n uploads the next one is n + 1. */
  lemma {:induction false} UploadsAreNumberedFromOne(doc: DocId, n: nat)
    ensures NextVersion(Uploads(doc, n), doc) == n + 1
  {
    if n > 0 {
      var earlier := Uploads(doc, n - 1);
      UploadsAreNumberedFromOne(doc, n - 1);
      AddingNextVersion(earlier, doc, n);
      UploadStep(doc, n, earlier);
    }
  }
}
