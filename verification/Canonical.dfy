/** Canonical resource identifiers: the grammar, and the one-pass scanner that decides it. */
module Canonical {
  import opened Base

  const FP_HEX_LEN := 16
  const NS_MAX := 32
  const PATH_MAX := 180
  const ID_MAX := 4 + FP_HEX_LEN + 1 + NS_MAX + 1 + PATH_MAX

  const SLASH: byte := 0x2f
  const DOT: byte := 0x2e
  const DASH: byte := 0x2d
  const UNDERSCORE: byte := 0x5f
  const SCHEME: bytes := [0x62, 0x6f, 0x6c, 0x3a]  // "bol:"

  predicate IsHexLower(c: byte) {
    0x30 <= c <= 0x39 || 0x61 <= c <= 0x66
  }

  predicate IsNsChar(c: byte) {
    0x61 <= c <= 0x7a || 0x30 <= c <= 0x39 || c == DASH
  }

  predicate IsPathChar(c: byte) {
    IsNsChar(c) || c == DOT || c == UNDERSCORE
  }

  // ---------- the grammar ----------

  // The segments between slashes; never none.
  function Split(path: bytes): (segs: seq<bytes>)
    ensures segs != []
  {
    if path == [] then [[]]
    else
      var rest := Split(path[1..]);
      if path[0] == SLASH then [[]] + rest
      else [[path[0]] + rest[0]] + rest[1..]
  }

  // From i up to j the path has one segment: no slash inside, and a slash or the path's end on either side.
  predicate SegmentAt(path: bytes, i: nat, j: nat) {
    && i <= j <= |path| && SLASH !in path[i..j]
    && (i == 0 || path[i - 1] == SLASH) && (j == |path| || path[j] == SLASH)
  }

  // The first segment ends at the first slash.
  lemma {:induction false} FirstSegment(path: bytes) returns (j: nat)
    ensures SegmentAt(path, 0, j) && Split(path)[0] == path[..j]
    ensures if j == |path| then |Split(path)| == 1 else Split(path)[1..] == Split(path[j + 1..])
  {
    if path == [] || path[0] == SLASH {
      j := 0;
    } else {
      var k := FirstSegment(path[1..]);
      j := k + 1;
      assert path[..j] == [path[0]] + path[1..][..k];
      assert SLASH !in path[0..j];
      if j < |path| {
        assert path[j + 1..] == path[1..][k + 1..] && path[j] == path[1..][k];
      }
    }
  }

  // Splitting gives exactly the segments.
  lemma {:induction false} SplitIff(path: bytes, s: bytes)
    ensures s in Split(path) <==> exists i: nat, j: nat :: SegmentAt(path, i, j) && path[i..j] == s
    decreases |path|
  {
    hide Split, SegmentAt;
    var end := FirstSegment(path);
    assert Split(path) == [Split(path)[0]] + Split(path)[1..];
    assert path[0..end] == path[..end];
    if end < |path| {
      SplitIff(path[end + 1..], s);
    }
    SegmentsFrom(path, end, if end < |path| then path[end + 1..] else [], s);
  }

  // The segments of a path are its first and those of the rest.
  lemma SegmentsFrom(path: bytes, end: nat, rest: bytes, s: bytes)
    requires SegmentAt(path, 0, end) && (end < |path| ==> rest == path[end + 1..])
    ensures (exists i: nat, j: nat :: SegmentAt(path, i, j) && path[i..j] == s) <==>
              || s == path[0..end]
              || (end < |path| && exists i: nat, j: nat :: SegmentAt(rest, i, j) && rest[i..j] == s)
  {
    if i: nat, j: nat :| SegmentAt(path, i, j) && path[i..j] == s {
      LaterSegment(path, end, i, j);
      if i > end {
        ShiftedSegment(path, end, i - end - 1, j - end - 1);
      }
    }
    if end < |path| {
      if i: nat, j: nat :| SegmentAt(rest, i, j) && rest[i..j] == s {
        ShiftedSegment(path, end, i, j);
      }
    }
  }

  lemma ShiftedSegment(path: bytes, end: nat, i: nat, j: nat)
    requires end < |path| && path[end] == SLASH
    ensures SegmentAt(path[end + 1..], i, j) <==> SegmentAt(path, end + 1 + i, end + 1 + j)
    ensures i <= j <= |path| - end - 1 ==> path[end + 1..][i..j] == path[end + 1 + i..end + 1 + j]
  {
    var rest := path[end + 1..];
    if i <= j <= |rest| {
      assert rest[i..j] == path[end + 1 + i..end + 1 + j];
    }
  }

  lemma NoSlashInside(path: bytes, i: nat, j: nat, k: int)
    requires i <= j <= |path| && SLASH !in path[i..j]
    ensures i <= k < j ==> path[k] != SLASH
  {
    if i <= k < j {
      assert path[i..j][k - i] == path[k];
    }
  }

  // A segment is the first one, or starts behind its slash.
  lemma LaterSegment(path: bytes, end: nat, i: nat, j: nat)
    requires SegmentAt(path, 0, end) && SegmentAt(path, i, j)
    ensures (i == 0 && j == end) || (i > end && end < |path|)
  {
    NoSlashInside(path, 0, end, j);
    NoSlashInside(path, 0, end, i - 1);
    NoSlashInside(path, i, j, end);
  }

  predicate ValidSegment(s: bytes) {
    && s != [] && s != [DOT] && s != [DOT, DOT]
    && forall c <- s :: IsPathChar(c)
  }

  predicate ValidPath(path: bytes) {
    && 1 <= |path| <= PATH_MAX
    && forall s <- Split(path) :: ValidSegment(s)
  }

  predicate ValidFp(fp: bytes) {
    |fp| == FP_HEX_LEN && forall c <- fp :: IsHexLower(c)
  }

  predicate ValidNs(ns: bytes) {
    1 <= |ns| <= NS_MAX && forall c <- ns :: IsNsChar(c)
  }

  // "bol:" fingerprint "/" namespace "/" path
  ghost predicate IsCanonical(id: bytes) {
    exists fp, ns, path ::
      && ValidFp(fp) && ValidNs(ns) && ValidPath(path)
      && id == SCHEME + fp + [SLASH] + ns + [SLASH] + path
  }

  // ---------- the grammar by position ----------

  const NS_START := 4 + FP_HEX_LEN + 1

  // The namespace of id ends at p.
  predicate Shape(id: bytes, p: nat) {
    && NS_START <= p < |id|
    && id[..4] == SCHEME && ValidFp(id[4..4 + FP_HEX_LEN]) && id[4 + FP_HEX_LEN] == SLASH
    && ValidNs(id[NS_START..p]) && id[p] == SLASH
    && ValidPath(id[p + 1..])
  }

  lemma ShapeIffCanonical(id: bytes)
    ensures IsCanonical(id) <==> exists p: nat :: Shape(id, p)
  {
    if IsCanonical(id) {
      var fp, ns, path :|
        && ValidFp(fp) && ValidNs(ns) && ValidPath(path)
        && id == SCHEME + fp + [SLASH] + ns + [SLASH] + path;
      ShapeOfParts(id, fp, ns, path);
    }
    if p: nat :| Shape(id, p) {
      var fp, ns, path := id[4..4 + FP_HEX_LEN], id[NS_START..p], id[p + 1..];
      assert id == SCHEME + fp + [SLASH] + ns + [SLASH] + path;
    }
  }

  // Sixteen lower-case hexadecimal digits.
  predicate SpelledFp(fp: bytes) {
    |fp| == 16 && forall c <- fp :: '0' as int <= c <= '9' as int || 'a' as int <= c <= 'f' as int
  }

  predicate Plain(c: byte) {
    'a' as int <= c <= 'z' as int || '0' as int <= c <= '9' as int || c == '-' as int
  }

  // 1 to 32 lower-case letters, digits and dashes.
  predicate SpelledNs(ns: bytes) {
    1 <= |ns| <= 32 && forall c <- ns :: Plain(c)
  }

  // 1 to 180 of these, dots, underscores and slashes, no segment empty, "." or "..".
  ghost predicate SpelledPath(path: bytes) {
    && 1 <= |path| <= 180
    && (forall c <- path :: Plain(c) || c == '.' as int || c == '_' as int || c == '/' as int)
    && (forall i: nat, j: nat :: SegmentAt(path, i, j) ==> path[i..j] !in {[], [0x2e], [0x2e, 0x2e]})
  }

  // The grammar spelled out by characters and positions.
  lemma CanonicalIff(id: bytes)
    ensures IsCanonical(id) <==> exists fp: bytes, ns: bytes, path: bytes ::
              && SpelledFp(fp) && SpelledNs(ns) && SpelledPath(path)
              && id == [0x62, 0x6f, 0x6c, 0x3a] + fp + [0x2f] + ns + [0x2f] + path
  {
    forall path: bytes ensures ValidPath(path) <==> SpelledPath(path) {
      PathIff(path);
    }
    NamesIff();
    hide ValidPath, SpelledPath, ValidFp, SpelledFp, ValidNs, SpelledNs;
  }

  lemma NamesIff()
    ensures forall fp :: ValidFp(fp) <==> SpelledFp(fp)
    ensures forall ns :: ValidNs(ns) <==> SpelledNs(ns)
  {
  }

  lemma PathIff(path: bytes)
    ensures ValidPath(path) <==> SpelledPath(path)
  {
    if ValidPath(path) {
      forall c | c in path ensures Plain(c) || c == '.' as int || c == '_' as int || c == '/' as int {
        var k: nat :| k < |path| && path[k] == c;
        if c != SLASH {
          var i, j := Around(path, k);
          SplitIff(path, path[i..j]);
          assert ValidSegment(path[i..j]) && path[i..j][k - i] == c;
          assert c in path[i..j];
        }
      }
      forall i: nat, j: nat | SegmentAt(path, i, j) ensures path[i..j] !in {[], [0x2e], [0x2e, 0x2e]} {
        SplitIff(path, path[i..j]);
        assert ValidSegment(path[i..j]);
      }
    }
    if SpelledPath(path) {
      forall s | s in Split(path) ensures ValidSegment(s) {
        SplitIff(path, s);
        var i: nat, j: nat :| SegmentAt(path, i, j) && path[i..j] == s;
        assert forall c :: c in s ==> c in path;
      }
    }
  }

  // Every character but a slash lies in a segment.
  lemma Around(path: bytes, k: nat) returns (i: nat, j: nat)
    requires k < |path| && path[k] != SLASH
    ensures SegmentAt(path, i, j) && i <= k < j
  {
    i, j := k, k + 1;
    while i > 0 && path[i - 1] != SLASH
      invariant i <= k < |path| && SLASH !in path[i..k + 1]
    {
      i := i - 1;
      assert path[i..k + 1] == [path[i]] + path[i + 1..k + 1];
    }
    while j < |path| && path[j] != SLASH
      invariant k < j <= |path| && SLASH !in path[i..j]
    {
      assert path[i..j + 1] == path[i..j] + [path[j]];
      j := j + 1;
    }
  }

  lemma ShapeOfParts(id: bytes, fp: bytes, ns: bytes, path: bytes)
    requires ValidFp(fp) && ValidNs(ns) && ValidPath(path)
    requires id == SCHEME + fp + [SLASH] + ns + [SLASH] + path
    ensures Shape(id, NS_START + |ns|)
  {
    hide ValidFp, ValidNs, ValidPath;
    FpLength(fp);
    var p := NS_START + |ns|;
    assert id[..4] == SCHEME;
    assert id[4..4 + FP_HEX_LEN] == fp;
    assert id[4 + FP_HEX_LEN] == SLASH;
    assert id[NS_START..p] == ns;
    assert id[p] == SLASH;
    assert id[p + 1..] == path;
  }

  lemma FpLength(fp: bytes)
    requires ValidFp(fp)
    ensures |fp| == FP_HEX_LEN
  {
  }

  // Accepted identifiers fit the fixed buffers.
  lemma CanonicalLength(id: bytes)
    requires IsCanonical(id)
    ensures NS_START + 3 <= |id| <= ID_MAX
  {
  }

  // ---------- the segment counter ----------

  function Dots(s: bytes): (n: nat)
    ensures n <= |s|
  {
    if s == [] then 0 else Dots(s[..|s| - 1]) + (if s[|s| - 1] == DOT then 1 else 0)
  }

  predicate SegLenInvalid(segLen: nat, dots: nat) {
    segLen == 0 || (dots == segLen && segLen <= 2)
  }

  // The scanner's verdict on the rest of the path, segLen characters and `dots` dots into a segment.
  predicate Scan(path: bytes, segLen: nat, dots: nat)
    decreases path
  {
    if path == [] then !SegLenInvalid(segLen, dots)
    else
      var c := path[0];
      && (IsPathChar(c) || c == SLASH)
      && if c == SLASH then !SegLenInvalid(segLen, dots) && Scan(path[1..], 0, 0)
         else Scan(path[1..], segLen + 1, if c == DOT then dots + 1 else dots)
  }

  // Counting dots is enough to recognise the empty, "." and ".." segments.
  lemma CountsDecideSegment(s: bytes)
    requires forall c <- s :: IsPathChar(c)
    ensures ValidSegment(s) <==> !SegLenInvalid(|s|, Dots(s))
  {
    if |s| == 1 {
      assert s == [s[0]] && s[..0] == [];
      assert Dots(s) == if s[0] == DOT then 1 else 0;
    } else if |s| == 2 {
      assert s == [s[0], s[1]] && s[..1] == [s[0]] && s[..1][..0] == [];
      assert Dots(s[..1]) == if s[0] == DOT then 1 else 0;
    }
  }

  // Scanning from inside a segment decides the segments of the whole.
  lemma {:induction false} ScanDecides(path: bytes, cur: bytes)
    requires forall c <- cur :: IsPathChar(c)
    ensures Scan(path, |cur|, Dots(cur)) <==>
            && ValidSegment(cur + Split(path)[0])
            && forall s <- Split(path)[1..] :: ValidSegment(s)
    decreases |path|
  {
    if path == [] {
      assert cur + [] == cur;
      CountsDecideSegment(cur);
    } else {
      var c, rest := path[0], path[1..];
      if c == SLASH {
        assert cur + [] == cur;
        CountsDecideSegment(cur);
        ScanDecides(rest, []);
        assert [] + Split(rest)[0] == Split(rest)[0];
        assert Split(path)[1..] == [Split(rest)[0]] + Split(rest)[1..];
      } else if IsPathChar(c) {
        var next := cur + [c];
        assert next[..|next| - 1] == cur;
        ScanDecides(rest, next);
        assert cur + ([c] + Split(rest)[0]) == next + Split(rest)[0];
        assert Split(path)[1..] == Split(rest)[1..];
      } else {
        assert (cur + Split(path)[0])[|cur|] == c;
      }
    }
  }

  lemma ScanDecidesPath(path: bytes)
    ensures Scan(path, 0, 0) <==> forall s <- Split(path) :: ValidSegment(s)
  {
    ScanDecides(path, []);
    assert [] + Split(path)[0] == Split(path)[0];
    assert Split(path) == [Split(path)[0]] + Split(path)[1..];
  }

  // ---------- the scanner ----------

  // The namespace can only end at the first slash after it starts.
  lemma ShapeEndsAt(id: bytes, pos: nat, p: nat)
    requires Shape(id, p) && NS_START <= pos <= |id|
    requires forall k :: NS_START <= k < pos ==> IsNsChar(id[k])
    requires pos == |id| || !IsNsChar(id[pos])
    ensures p == pos
  {
    assert id[NS_START..p] <= id[NS_START..];
  }

  method ValidateCanonical(id: bytes) returns (r: bool)
    ensures r <==> IsCanonical(id)
  {
    ShapeIffCanonical(id);
    if |id| < 4 + FP_HEX_LEN + 3 {
      return false;
    }
    if id[..4] != SCHEME {
      return false;
    }
    for i := 4 to 4 + FP_HEX_LEN
      invariant forall k :: 4 <= k < i ==> IsHexLower(id[k])
    {
      if !IsHexLower(id[i]) {
        assert id[4..4 + FP_HEX_LEN][i - 4] == id[i];
        return false;
      }
    }
    if id[4 + FP_HEX_LEN] != SLASH {
      return false;
    }
    r := ValidateFromNs(id);
  }

  // The scan from the namespace on.
  method ValidateFromNs(id: bytes) returns (r: bool)
    requires |id| >= NS_START && id[..4] == SCHEME && id[4 + FP_HEX_LEN] == SLASH
    requires forall k :: 4 <= k < 4 + FP_HEX_LEN ==> IsHexLower(id[k])
    ensures r <==> exists p: nat :: Shape(id, p)
  {
    hide ValidPath;
    var pos := NS_START;
    while pos < |id| && id[pos] != SLASH
      invariant NS_START <= pos <= |id|
      invariant forall k :: NS_START <= k < pos ==> IsNsChar(id[k])
    {
      if !IsNsChar(id[pos]) {
        forall p: nat | Shape(id, p) ensures p == pos {
          ShapeEndsAt(id, pos, p);
        }
        return false;
      }
      pos := pos + 1;
    }
    forall p: nat | Shape(id, p) ensures p == pos {
      ShapeEndsAt(id, pos, p);
    }
    var nsLen := pos - NS_START;
    assert |id[NS_START..pos]| == nsLen;
    if nsLen < 1 || nsLen > NS_MAX {
      return false;
    }
    if pos >= |id| || id[pos] != SLASH {
      return false;
    }
    var valid := ValidatePath(id, pos + 1);
    assert Shape(id, pos) <==> valid;
    return valid;
  }

  method ValidatePath(id: bytes, pathStart: nat) returns (r: bool)
    requires pathStart <= |id|
    ensures r <==> ValidPath(id[pathStart..])
  {
    ghost var path := id[pathStart..];
    ScanDecidesPath(path);
    var pos := pathStart;
    var segLen, dots := 0, 0;
    while pos < |id|
      invariant pathStart <= pos <= |id|
      invariant Scan(path, 0, 0) == Scan(id[pos..], segLen, dots)
    {
      ghost var rest := id[pos..];
      assert rest[0] == id[pos] && rest[1..] == id[pos + 1..];
      var c := id[pos];
      if !IsPathChar(c) && c != SLASH {
        return false;
      }
      if c == SLASH {
        if SegLenInvalid(segLen, dots) {
          return false;
        }
        segLen := 0;
        dots := 0;
      } else {
        segLen := segLen + 1;
        if c == DOT {
          dots := dots + 1;
        }
      }
      pos := pos + 1;
    }
    if SegLenInvalid(segLen, dots) {
      return false;
    }
    var pathLen := |id| - pathStart;
    return 1 <= pathLen && pathLen <= PATH_MAX;
  }
}
