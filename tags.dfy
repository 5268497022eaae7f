/**
 * Tag normalisation of the upload and request pages:
 * [t.strip() for t in tags.split(",") if t.strip()], stored as ",".join(tags).
 */
module Tags {

  /** Python's str.isspace for one character: the code points str.strip() removes. */
  predicate IsSpace(c: char)
  {
    var n := c as int;
    || 0x09 <= n <= 0x0D || 0x1C <= n <= 0x20 || n == 0x85 || n == 0xA0 || n == 0x1680
    || 0x2000 <= n <= 0x200A || n == 0x2028 || n == 0x2029 || n == 0x202F || n == 0x205F || n == 0x3000
  }

  /** s.split(","): the pieces between commas, at least one, none containing a comma. */
  function Split(s: string): (parts: seq<string>)
    ensures |parts| >= 1
    ensures NoCommas(parts)
  {
    if s == [] then [""]
    else
      var rest := Split(s[1..]);
      if s[0] == ',' then [""] + rest
      else [[s[0]] + rest[0]] + rest[1..]
  }

  /**
   * ",".join(parts): "" for no pieces and the piece itself for one; the
   * first piece comes first, and a comma appears exactly when there are two
   * pieces or one has one. JoinConcat gives the longer lists.
   */
  function Join(parts: seq<string>): (r: string)
    ensures parts == [] ==> r == ""
    ensures |parts| == 1 ==> r == parts[0]
    ensures parts != [] ==> parts[0] <= r
    ensures ',' !in r <==> |parts| <= 1 && NoCommas(parts)
  {
    if parts == [] then ""
    else if |parts| == 1 then parts[0]
    else
      var rest := Join(parts[1..]);
      assert (parts[0] + "," + rest)[|parts[0]|] == ',';
      parts[0] + "," + rest
  }

  /** Leading whitespace removed: a suffix of s, starting with a non-space if not empty. */
  function TrimLeft(s: string): (r: string)
    ensures |r| <= |s| && r == s[|s| - |r|..]
    ensures forall k :: 0 <= k < |s| - |r| ==> IsSpace(s[k])
    ensures r == [] || !IsSpace(r[0])
  {
    if s != [] && IsSpace(s[0]) then TrimLeft(s[1..]) else s
  }

  /** Trailing whitespace removed: a prefix of s, ending with a non-space if not empty. */
  function TrimRight(s: string): (r: string)
    ensures |r| <= |s| && r == s[..|r|]
    ensures forall k :: |r| <= k < |s| ==> IsSpace(s[k])
    ensures r == [] || !IsSpace(r[|r| - 1])
  {
    if s != [] && IsSpace(s[|s| - 1]) then TrimRight(s[..|s| - 1]) else s
  }

  /** Neither starts nor ends with whitespace. */
  predicate IsStripped(s: string)
  {
    s == [] || (!IsSpace(s[0]) && !IsSpace(s[|s| - 1]))
  }

  /** s.strip(): the text between the leading and the trailing whitespace. */
  function Strip(s: string): (r: string)
    ensures IsStripped(r)
    ensures forall k :: 0 <= k < |r| ==> r[k] in s
  {
    var left := TrimLeft(s);
    var r := TrimRight(left);
    var off := |s| - |left|;
    assert left == s[off..] && r == left[..|r|];
    SliceOfSuffix(s, off, left, r);
    r
  }

  /** A prefix of a suffix of s takes its characters from s. */
  lemma SliceOfSuffix(s: string, off: nat, left: string, r: string)
    requires off <= |s| && left == s[off..] && |r| <= |left| && r == left[..|r|]
    ensures forall k :: 0 <= k < |r| ==> r[k] in s
    ensures r != [] ==> r[0] == left[0]
  {
    forall k | 0 <= k < |r| ensures r[k] in s {
      assert r[k] == s[off + k];
    }
  }

  /** strip() gives the empty string exactly when the text is all whitespace. */
  lemma StripEmpty(s: string)
    ensures Strip(s) == [] <==> forall k :: 0 <= k < |s| ==> IsSpace(s[k])
  {
    var left := TrimLeft(s);
    if forall k :: 0 <= k < |s| ==> IsSpace(s[k]) {
      assert left == [];
    } else {
      assert left != [];
      assert TrimRight(left) != [] by {
        assert !IsSpace(left[0]);
      }
    }
  }

  /** A text without whitespace at either end is its own strip. */
  lemma StripStripped(s: string)
    requires IsStripped(s)
    ensures Strip(s) == s
  {
    if s != [] {
      assert TrimLeft(s) == s;
      assert TrimRight(s) == s;
    }
  }

  /** r is s[a..b], with only whitespace before a and from b on. */
  predicate CoreOf(s: string, a: int, b: int, r: string)
  {
    && 0 <= a <= b <= |s| && r == s[a..b]
    && (forall k :: 0 <= k < a ==> IsSpace(s[k]))
    && (forall k :: b <= k < |s| ==> IsSpace(s[k]))
  }

  /**
   * strip() removes exactly the leading and the trailing whitespace: it is
   * a slice of s with only whitespace around it. With IsStripped this fixes
   * the result.
   */
  lemma StripIsSlice(s: string)
    ensures exists a, b :: CoreOf(s, a, b, Strip(s))
  {
    var left := TrimLeft(s);
    var r := TrimRight(left);
    var a := |s| - |left|;
    TrimsAreCore(s, a, left, r);
    assert Strip(s) == r;
    assert CoreOf(s, a, a + |r|, Strip(s));
  }

  /** A prefix of a suffix, with whitespace cut from either end, is a core slice. */
  lemma TrimsAreCore(s: string, a: nat, left: string, r: string)
    requires a <= |s| && left == s[a..] && forall k :: 0 <= k < a ==> IsSpace(s[k])
    requires |r| <= |left| && r == left[..|r|] && forall k :: |r| <= k < |left| ==> IsSpace(left[k])
    ensures CoreOf(s, a, a + |r|, r)
  {
    forall k | a + |r| <= k < |s| ensures IsSpace(s[k]) {
      assert s[k] == left[k - a];
    }
  }

  /** No piece contains a comma. */
  predicate NoCommas(parts: seq<string>)
  {
    forall k :: 0 <= k < |parts| ==> ',' !in parts[k]
  }

  /** Tags as stored: none empty, none containing a comma, none with whitespace at either end. */
  predicate CleanTags(tags: seq<string>)
  {
    NoCommas(tags) && forall k :: 0 <= k < |tags| ==> tags[k] != [] && IsStripped(tags[k])
  }

  /** The pieces stripped one by one: t.strip() for t in parts. */
  function StripEach(parts: seq<string>): (r: seq<string>)
    ensures |r| == |parts|
    ensures forall i :: 0 <= i < |r| ==> r[i] == Strip(parts[i])
  {
    Map(Strip, parts)
  }

  /** [f(x) for x in xs]. */
  function Map<T, U>(f: T -> U, xs: seq<T>): (ys: seq<U>)
    ensures |ys| == |xs|
    ensures forall i :: 0 <= i < |xs| ==> ys[i] == f(xs[i])
  {
    seq(|xs|, i requires 0 <= i < |xs| => f(xs[i]))
  }

  /** Mapping a + b maps a, then b. */
  lemma MapConcat<T, U>(f: T -> U, a: seq<T>, b: seq<T>)
    ensures Map(f, a + b) == Map(f, a) + Map(f, b)
  {
    var l := Map(f, a + b);
    var r := Map(f, a) + Map(f, b);
    forall i | 0 <= i < |a| + |b| ensures l[i] == r[i] {
      if i < |a| {
        assert (a + b)[i] == a[i];
      } else {
        assert (a + b)[i] == b[i - |a|];
      }
    }
  }

  /** The `if t.strip()` filter: the non-empty strings, in order. */
  function KeepNonEmpty(ts: seq<string>): (r: seq<string>)
    ensures |r| <= |ts|
    ensures forall i :: 0 <= i < |r| ==> r[i] != [] && r[i] in ts
  {
    if ts == [] then []
    else
      var rest := KeepNonEmpty(ts[1..]);
      assert forall t :: t in ts[1..] ==> t in ts;
      if ts[0] != [] then [ts[0]] + rest else rest
  }

  /** The comprehension over the pieces: strip each, keep the non-empty ones, in order. */
  function StripAndKeep(parts: seq<string>): (tags: seq<string>)
    ensures |tags| <= |parts|
    ensures forall k :: 0 <= k < |tags| ==> tags[k] != [] && IsStripped(tags[k])
    ensures NoCommas(parts) ==> CleanTags(tags)
  {
    var ts := StripEach(parts);
    KeptAreStripped(ts);
    assert NoCommas(parts) ==> NoCommas(KeepNonEmpty(ts)) by {
      if NoCommas(parts) {
        StripEachCommaFree(parts);
        KeptAreCommaFree(ts);
      }
    }
    KeepNonEmpty(ts)
  }

  /** Stripping comma-free pieces leaves them comma-free. */
  lemma StripEachCommaFree(parts: seq<string>)
    requires NoCommas(parts)
    ensures NoCommas(StripEach(parts))
  {
    forall i | 0 <= i < |parts| ensures ',' !in StripEach(parts)[i] {
      assert StripEach(parts)[i] == Strip(parts[i]);
    }
  }

  /** Keeping the non-empty ones among stripped strings gives stripped strings. */
  lemma KeptAreStripped(ts: seq<string>)
    requires forall i :: 0 <= i < |ts| ==> IsStripped(ts[i])
    ensures forall k :: 0 <= k < |KeepNonEmpty(ts)| ==> IsStripped(KeepNonEmpty(ts)[k])
  {
    var r := KeepNonEmpty(ts);
    forall k | 0 <= k < |r| ensures IsStripped(r[k]) {
      var j :| 0 <= j < |ts| && ts[j] == r[k];
    }
  }

  /** Keeping the non-empty ones among comma-free strings gives comma-free strings. */
  lemma KeptAreCommaFree(ts: seq<string>)
    requires NoCommas(ts)
    ensures NoCommas(KeepNonEmpty(ts))
  {
    var r := KeepNonEmpty(ts);
    forall k | 0 <= k < |r| ensures ',' !in r[k] {
      var j :| 0 <= j < |ts| && ts[j] == r[k];
    }
  }

  /** The filter runs piece by piece: keeping from a + b keeps from a, then from b. */
  lemma {:induction false} KeepNonEmptyConcat(a: seq<string>, b: seq<string>)
    ensures KeepNonEmpty(a + b) == KeepNonEmpty(a) + KeepNonEmpty(b)
  {
    if a != [] {
      KeepNonEmptyConcat(a[1..], b);
      assert a + b == [a[0]] + (a[1..] + b);
      assert a == [a[0]] + a[1..];
      KeepNonEmptyCons(a[0], a[1..] + b);
      KeepNonEmptyCons(a[0], a[1..]);
    } else {
      assert a + b == b;
    }
  }

  /** One step of the filter: the head is kept when it is not empty. */
  lemma KeepNonEmptyCons(t: string, ts: seq<string>)
    ensures KeepNonEmpty([t] + ts) == (if t != [] then [t] else []) + KeepNonEmpty(ts)
  {
    assert ([t] + ts)[1..] == ts;
  }

  /** One string passes the filter exactly when it is not empty. */
  lemma KeepNonEmptySingle(t: string)
    ensures KeepNonEmpty([t]) == if t == [] then [] else [t]
  {
    assert [t][1..] == [];
  }

  /** Strip-and-keep runs piece by piece. */
  lemma StripAndKeepConcat(a: seq<string>, b: seq<string>)
    ensures StripAndKeep(a + b) == StripAndKeep(a) + StripAndKeep(b)
  {
    MapConcat(Strip, a, b);
    KeepNonEmptyConcat(StripEach(a), StripEach(b));
  }

  /** A single piece gives its strip, or nothing when that is empty. */
  lemma StripAndKeepSingle(p: string)
    ensures StripAndKeep([p]) == if Strip(p) == [] then [] else [Strip(p)]
  {
    assert StripEach([p]) == [Strip(p)];
    KeepNonEmptySingle(Strip(p));
  }

  /** The tag list of a comma-separated tags field. */
  function NormalizeTags(s: string): (tags: seq<string>)
    ensures CleanTags(tags)
  {
    StripAndKeep(Split(s))
  }

  /** Joining a + b joins a, then b, with one comma between them. */
  lemma {:induction false} JoinConcat(a: seq<string>, b: seq<string>)
    requires a != [] && b != []
    ensures Join(a + b) == Join(a) + "," + Join(b)
  {
    assert (a + b)[0] == a[0];
    if |a| == 1 {
      assert (a + b)[1..] == b;
    } else {
      assert (a + b)[1..] == a[1..] + b;
      JoinConcat(a[1..], b);
      assert Join(a + b) == a[0] + "," + (Join(a[1..]) + "," + Join(b));
    }
  }

  /** A piece without commas splits into itself. */
  lemma {:induction false} SplitNoComma(s: string)
    requires ',' !in s
    ensures Split(s) == [s]
  {
    if s != [] {
      SplitNoComma(s[1..]);
      assert [s[0]] + s[1..] == s;
    }
  }

  /** Splitting at the first comma. */
  lemma {:induction false} SplitAtComma(a: string, b: string)
    requires ',' !in a
    ensures Split(a + "," + b) == [a] + Split(b)
  {
    if a == [] {
      assert a + "," + b == [','] + b;
    } else {
      assert (a + "," + b)[1..] == a[1..] + "," + b;
      assert (a + "," + b)[0] == a[0];
      SplitAtComma(a[1..], b);
      assert [a[0]] + a[1..] == a;
    }
  }

  /** Joining the pieces of a split gives the text back. */
  lemma {:induction false} JoinSplit(s: string)
    ensures Join(Split(s)) == s
  {
    if s != [] {
      var rest := Split(s[1..]);
      JoinSplit(s[1..]);
      if s[0] == ',' {
        JoinConcat([""], rest);
      } else {
        JoinExtendFirst(s[0], rest);
      }
      assert s == [s[0]] + s[1..];
    }
  }

  /** Putting a character in front of the first piece puts it in front of the join. */
  lemma JoinExtendFirst(c: char, parts: seq<string>)
    requires parts != []
    ensures Join([[c] + parts[0]] + parts[1..]) == [c] + Join(parts)
  {
    var first, tail := parts[0], parts[1..];
    assert parts == [first] + tail;
    if tail == [] {
      assert [[c] + first] + tail == [[c] + first];
    } else {
      JoinConcat([[c] + first], tail);
      JoinConcat([first], tail);
      var j := Join(tail);
      assert Join([[c] + first] + tail) == ([c] + first) + "," + j;
      assert Join(parts) == first + "," + j;
      assert ([c] + first) + "," + j == [c] + (first + "," + j);
    }
  }

  /** Splitting a join of comma-free pieces gives the pieces back. */
  lemma {:induction false} SplitJoin(parts: seq<string>)
    requires parts != []
    requires NoCommas(parts)
    ensures Split(Join(parts)) == parts
  {
    if |parts| == 1 {
      SplitNoComma(parts[0]);
    } else {
      SplitJoin(parts[1..]);
      SplitAtComma(parts[0], Join(parts[1..]));
    }
  }

  /** Storing clean tags and reading the column back yields the same tags. */
  lemma NormalizeJoin(tags: seq<string>)
    requires CleanTags(tags)
    ensures NormalizeTags(Join(tags)) == tags
  {
    if tags != [] {
      SplitJoin(tags);
    }
    StripAndKeepClean(tags);
  }

  /** Normalising the stored column of a normalised field changes nothing. */
  lemma NormalizeIdempotent(s: string)
    ensures NormalizeTags(Join(NormalizeTags(s))) == NormalizeTags(s)
  {
    NormalizeJoin(NormalizeTags(s));
  }

  /** A non-empty string passes the filter. */
  lemma {:induction false} KeepNonEmptyKeeps(ts: seq<string>, k: nat)
    requires k < |ts| && ts[k] != []
    ensures ts[k] in KeepNonEmpty(ts)
  {
    var rest := KeepNonEmpty(ts[1..]);
    if k > 0 {
      assert ts[k] == ts[1..][k - 1];
      KeepNonEmptyKeeps(ts[1..], k - 1);
      assert ts[k] in rest;
    }
  }

  /** Strings that are all non-empty pass the filter unchanged. */
  lemma {:induction false} KeepNonEmptyAll(ts: seq<string>)
    requires forall i :: 0 <= i < |ts| ==> ts[i] != []
    ensures KeepNonEmpty(ts) == ts
  {
    if ts != [] {
      assert forall i :: 0 <= i < |ts[1..]| ==> ts[1..][i] == ts[i + 1];
      KeepNonEmptyAll(ts[1..]);
      assert [ts[0]] + ts[1..] == ts;
    }
  }

  /** Stripping strings that are already stripped changes none of them. */
  lemma StripEachStripped(parts: seq<string>)
    requires forall i :: 0 <= i < |parts| ==> IsStripped(parts[i])
    ensures StripEach(parts) == parts
  {
    forall i | 0 <= i < |parts| ensures StripEach(parts)[i] == parts[i] {
      StripStripped(parts[i]);
    }
  }

  /** Clean tags pass the strip-and-keep step unchanged. */
  lemma StripAndKeepClean(tags: seq<string>)
    requires CleanTags(tags)
    ensures StripAndKeep(tags) == tags
  {
    StripEachStripped(tags);
    KeepNonEmptyAll(tags);
  }

  /** A piece that is not all whitespace is kept, as its strip. */
  lemma StripAndKeepKeeps(parts: seq<string>, k: nat)
    requires k < |parts| && exists j :: 0 <= j < |parts[k]| && !IsSpace(parts[k][j])
    ensures Strip(parts[k]) in StripAndKeep(parts)
  {
    StripEmpty(parts[k]);
    var ts := StripEach(parts);
    assert ts[k] == Strip(parts[k]);
    KeepNonEmptyKeeps(ts, k);
  }

  /** Every kept tag is the strip of one of the pieces. */
  lemma StripAndKeepSound(parts: seq<string>, t: string)
    requires t in StripAndKeep(parts)
    ensures exists k :: 0 <= k < |parts| && t == Strip(parts[k])
  {
    var ts := StripEach(parts);
    var r := KeepNonEmpty(ts);
    var i :| 0 <= i < |r| && r[i] == t;
    var k :| 0 <= k < |ts| && ts[k] == t;
    assert t == Strip(parts[k]);
  }

  /** A comma-free field gives its strip as the one tag, or no tag when it is all whitespace. */
  lemma NormalizeTagsPiece(p: string)
    requires ',' !in p
    ensures NormalizeTags(p) == if Strip(p) == [] then [] else [Strip(p)]
  {
    SplitNoComma(p);
    StripAndKeepSingle(p);
  }

  /** The field is normalised piece by piece: the tags before the first comma, then the tags after it. */
  lemma NormalizeTagsAtComma(a: string, b: string)
    requires ',' !in a
    ensures NormalizeTags(a + "," + b) == NormalizeTags(a) + NormalizeTags(b)
  {
    SplitAtComma(a, b);
    SplitNoComma(a);
    StripAndKeepConcat([a], Split(b));
  }
}
