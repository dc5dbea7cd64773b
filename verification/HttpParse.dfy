/** The control plane's strict HTTP/1.1 request parser (sections 3, 5 and 6 of RFC 9112): what it accepts,
    and that it looks at nothing past the end of the head. */
module HttpParse {
  import opened Base
  import opened Collections

  const HEADER_CAP := 8192
  const BODY_CAP := 64 * 1024

  const SP: byte := 0x20
  const TAB: byte := 0x09
  const COLON: byte := 0x3a
  const QUERY: byte := 0x3f
  const CRLF: bytes := [0x0d, 0x0a]
  const TERMINATOR: bytes := [0x0d, 0x0a, 0x0d, 0x0a]
  const VERSION: bytes := [0x48, 0x54, 0x54, 0x50, 0x2f, 0x31, 0x2e, 0x31]
  const CONTENT_LENGTH: bytes := [0x43, 0x6f, 0x6e, 0x74, 0x65, 0x6e, 0x74, 0x2d, 0x4c, 0x65, 0x6e, 0x67, 0x74, 0x68]
  const TRANSFER_ENCODING: bytes := [
    0x54, 0x72, 0x61, 0x6e, 0x73, 0x66, 0x65, 0x72, 0x2d, 0x45, 0x6e, 0x63, 0x6f, 0x64, 0x69, 0x6e, 0x67]

  datatype Bad =
    | MalformedLine | BadVersion | BadMethod | TransferEncoding | LengthRequired | ConflictingLength
    | ObsFold | SpaceBeforeColon | DoubleSP | ControlInTarget

  datatype ParseError = Incomplete | HeadersTooLarge | BodyTooLarge | BadRequest(bad: Bad)

  datatype Method = Get | Post {
    function Name(): bytes {
      if Get? then [0x47, 0x45, 0x54] else [0x50, 0x4f, 0x53, 0x54]
    }
  }

  datatype Request = Request(verb: Method, targetStart: nat, targetEnd: nat, queryStart: Option<nat>,
                             contentLength: nat, bodyStart: nat)

  // The value of a length field: trimmed text read as a decimal machine word, supplied from outside.
  type Number = bytes -> Option<nat>

  // ---------- searching ----------

  predicate Matches(hay: bytes, needle: bytes, k: int) {
    0 <= k <= |hay| - |needle| && hay[k..k + |needle|] == needle
  }

  // The first occurrence of a non-empty needle.
  function Find(hay: bytes, needle: bytes): (r: Option<nat>)
    requires needle != []
    ensures r.Some? ==> Matches(hay, needle, r.value) && forall k :: k < r.value ==> !Matches(hay, needle, k)
    ensures r.None? ==> forall k :: !Matches(hay, needle, k)
  {
    if |hay| < |needle| then None
    else if hay[..|needle|] == needle then Some(0)
    else
      var later := Find(hay[1..], needle);
      assert forall k :: k > 0 && Matches(hay, needle, k) ==> Matches(hay[1..], needle, k - 1) by {
        forall k | k > 0 && Matches(hay, needle, k) ensures Matches(hay[1..], needle, k - 1) {
          assert hay[1..][k - 1..k - 1 + |needle|] == hay[k..k + |needle|];
        }
      }
      if later.Some? then
        assert hay[1..][later.value..later.value + |needle|] == hay[later.value + 1..later.value + 1 + |needle|];
        Some(later.value + 1)
      else None
  }

  // One differing byte is no match.
  lemma NoMatchAt(hay: bytes, needle: bytes, k: int, i: nat)
    requires i < |needle| && (0 <= k && k + i < |hay| ==> hay[k + i] != needle[i])
    ensures !Matches(hay, needle, k)
  {
    if 0 <= k <= |hay| - |needle| {
      assert hay[k..k + |needle|][i] == hay[k + i];
    }
  }

  lemma MatchesLonger(hay: bytes, more: bytes, needle: bytes, k: int)
    requires Matches(hay, needle, k)
    ensures Matches(hay + more, needle, k)
  {
    assert (hay + more)[k..k + |needle|] == hay[k..k + |needle|];
  }

  // What is found first is found first in anything longer.
  lemma FoundFirst(hay: bytes, more: bytes, needle: bytes)
    requires needle != [] && Find(hay, needle).Some?
    ensures Find(hay + more, needle) == Find(hay, needle)
  {
    hide Find;
    var all := hay + more;
    var i := Find(hay, needle).value;
    assert all[i..i + |needle|] == hay[i..i + |needle|];
    assert Matches(all, needle, i);
    var j := Find(all, needle).value;
    assert j <= i;
    assert all[j..j + |needle|] == hay[j..j + |needle|];
    assert Matches(hay, needle, j);
  }

  function IndexOf(s: bytes, b: byte): (r: Option<nat>)
    ensures r.Some? ==> r.value < |s| && s[r.value] == b && forall k :: 0 <= k < r.value ==> s[k] != b
    ensures r.None? ==> b !in s
  {
    if s == [] then None
    else if s[0] == b then Some(0)
    else match IndexOf(s[1..], b)
      case Some(i) => Some(i + 1)
      case None => None
  }

  function Count(s: bytes, b: byte): (n: nat)
    ensures n == 0 <==> b !in s
  {
    if s == [] then 0 else (if s[0] == b then 1 else 0) + Count(s[1..], b)
  }

  lemma {:induction false} CountSplit(s: bytes, t: bytes, b: byte)
    ensures Count(s + t, b) == Count(s, b) + Count(t, b)
  {
    if s == [] {
      assert s + t == t;
    } else {
      CountSplit(s[1..], t, b);
      assert (s + t)[1..] == s[1..] + t;
    }
  }

  // ---------- the request line ----------

  // Exactly two spaces, and what they separate.
  function SplitLine(line: bytes): Result<(bytes, bytes, bytes), Bad> {
    match IndexOf(line, SP)
    case None => Err(MalformedLine)
    case Some(sp1) =>
      if Count(line, SP) != 2 then Err(DoubleSP) else
      var rest := line[sp1 + 1..];
      match IndexOf(rest, SP)
      case None => Err(MalformedLine)
      case Some(sp2) => Ok((line[..sp1], rest[..sp2], rest[sp2 + 1..]))
  }

  predicate Visible(target: bytes) {
    forall b <- target :: b >= 0x21
  }

  function ParseLine(line: bytes): Result<(Method, bytes), Bad> {
    var (verb, target, version) :- SplitLine(line);
    if version != VERSION then Err(BadVersion)
    else if verb != Get.Name() && verb != Post.Name() then Err(BadMethod)
    else if !Visible(target) then Err(ControlInTarget)
    else Ok((if verb == Get.Name() then Get else Post, target))
  }

  // A request line: method, one space, a target of visible characters, one space, the version.
  predicate IsRequestLine(line: bytes, verb: Method, target: bytes) {
    line == verb.Name() + ([SP] + (target + ([SP] + VERSION))) && forall b <- target :: b > 0x20
  }

  // The first space after text without spaces.
  lemma FirstAfter(text: bytes, rest: bytes)
    requires SP !in text
    ensures IndexOf(text + ([SP] + rest), SP) == Some(|text|)
    ensures (text + ([SP] + rest))[..|text|] == text && (text + ([SP] + rest))[|text| + 1..] == rest
    ensures Count(text + ([SP] + rest), SP) == 1 + Count(rest, SP)
  {
    var s := text + ([SP] + rest);
    assert s[|text|] == SP;
    assert forall k :: 0 <= k < |text| ==> s[k] == text[k];
    CountSplit(text, [SP] + rest, SP);
    assert ([SP] + rest)[1..] == rest;
  }

  lemma SplitIff(line: bytes, a: bytes, b: bytes, c: bytes)
    ensures SplitLine(line) == Ok((a, b, c)) <==>
            line == a + ([SP] + (b + ([SP] + c))) && SP !in a && SP !in b && SP !in c
  {
    hide SplitLine;
    if SplitLine(line) == Ok((a, b, c)) {
      SplitSound(line, a, b, c);
    }
    if line == a + ([SP] + (b + ([SP] + c))) && SP !in a && SP !in b && SP !in c {
      SplitComplete(a, b, c);
    }
  }

  lemma SplitComplete(a: bytes, b: bytes, c: bytes)
    requires SP !in a && SP !in b && SP !in c
    ensures SplitLine(a + ([SP] + (b + ([SP] + c)))) == Ok((a, b, c))
  {
    hide IndexOf, Count;
    var rest := b + ([SP] + c);
    FirstAfter(b, c);
    FirstAfter(a, rest);
  }

  lemma SplitSound(line: bytes, a: bytes, b: bytes, c: bytes)
    requires SplitLine(line) == Ok((a, b, c))
    ensures line == a + ([SP] + (b + ([SP] + c))) && SP !in a && SP !in b && SP !in c
  {
    var rest := line[|a| + 1..];
    assert rest == b + ([SP] + c);
    assert line == a + ([SP] + rest);
    FirstAfter(a, rest);
    FirstAfter(b, c);
  }

  // The line parser accepts exactly the request lines, and reads off their parts.
  lemma LineIff(line: bytes, verb: Method, target: bytes)
    ensures ParseLine(line) == Ok((verb, target)) <==> IsRequestLine(line, verb, target)
  {
    hide SplitLine;
    SplitIff(line, verb.Name(), target, VERSION);
    assert |Get.Name()| == 3 && |Post.Name()| == 4;
    assert SP !in verb.Name() && SP !in VERSION && (Visible(target) ==> SP !in target);
    if ParseLine(line) == Ok((verb, target)) {
      var words := SplitLine(line).value;
      assert words.0 == verb.Name() && words.1 == target && words.2 == VERSION;
    }
  }

  // ---------- the fields ----------

  // What one field says about the body's length.
  function ReadField(field: bytes, number: Number): Result<Option<nat>, Bad>
    requires field != []
  {
    if field[0] == SP || field[0] == TAB then Err(ObsFold) else
    match IndexOf(field, COLON)
    case None => Err(MalformedLine)
    case Some(colon) =>
      if colon > 0 && field[colon - 1] == SP then Err(SpaceBeforeColon)
      else if field[..colon] == CONTENT_LENGTH then
        match number(field[colon + 1..])
        case None => Err(LengthRequired)
        case Some(v) => Ok(Some(v))
      else if field[..colon] == TRANSFER_ENCODING then Err(TransferEncoding)
      else Ok(None)
  }

  // A field is a name, the first colon, and a value.
  predicate Named(field: bytes, name: bytes, value: bytes) {
    COLON !in name && field == name + [COLON] + value
  }

  lemma NamedIff(field: bytes, name: bytes, value: bytes)
    ensures Named(field, name, value) <==>
              var colon := IndexOf(field, COLON);
              colon.Some? && name == field[..colon.value] && value == field[colon.value + 1..]
  {
    if Named(field, name, value) {
      assert field[|name|] == COLON && forall k :: 0 <= k < |name| ==> field[k] == name[k];
    }
    var colon := IndexOf(field, COLON);
    if colon.Some? {
      assert field == field[..colon.value] + [COLON] + field[colon.value + 1..];
    }
  }

  // A field declares a length exactly when it is named Content-Length, letter for letter, and its value reads as one.
  lemma LengthFieldIff(field: bytes, number: Number, v: nat)
    requires field != []
    ensures ReadField(field, number) == Ok(Some(v)) <==>
              exists value: bytes :: Named(field, CONTENT_LENGTH, value) && number(value) == Some(v)
  {
    var colon := IndexOf(field, COLON);
    if colon.Some? {
      NamedIff(field, CONTENT_LENGTH, field[colon.value + 1..]);
      assert CONTENT_LENGTH[0] == 0x43 && CONTENT_LENGTH[13] == 0x68;
      if field[..colon.value] == CONTENT_LENGTH {
        assert field[0] == field[..colon.value][0] && field[colon.value - 1] == field[..colon.value][colon.value - 1];
      }
    }
    forall value: bytes ensures Named(field, CONTENT_LENGTH, value) ==>
        colon.Some? && field[..colon.value] == CONTENT_LENGTH && value == field[colon.value + 1..]
    {
      NamedIff(field, CONTENT_LENGTH, value);
    }
  }

  // Any other field passes exactly when it has a name, does not begin with a blank, has no space before its colon, and
  // is not named Transfer-Encoding.
  lemma OtherFieldIff(field: bytes, number: Number)
    requires field != []
    ensures ReadField(field, number) == Ok(None) <==>
              && field[0] != SP && field[0] != TAB
              && exists name: bytes, value: bytes :: Named(field, name, value)
                   && (name != [] ==> name[|name| - 1] != SP) && name != CONTENT_LENGTH && name != TRANSFER_ENCODING
  {
    var colon := IndexOf(field, COLON);
    if colon.Some? {
      NamedIff(field, field[..colon.value], field[colon.value + 1..]);
    }
    forall name: bytes, value: bytes ensures Named(field, name, value) ==>
        colon.Some? && name == field[..colon.value] && value == field[colon.value + 1..]
    {
      NamedIff(field, name, value);
    }
  }

  // Where the field starting at h ends: at the next line break, or with the head.
  function FieldEnd(raw: bytes, h: nat): (e: nat)
    requires h < |raw|
    ensures h <= e <= |raw|
  {
    match Find(raw[h..], CRLF)
    case Some(i) => h + i
    case None => |raw|
  }

  function Scan(raw: bytes, h: nat, length: Option<nat>, number: Number): Result<Option<nat>, Bad>
    decreases |raw| - h
  {
    if h >= |raw| then Ok(length) else
    var e := FieldEnd(raw, h);
    if e == h then Ok(length) else
    var v :- ReadField(raw[h..e], number);
    if v.Some? && length.Some? && v != length then Err(ConflictingLength)
    else Scan(raw, e + 2, if v.Some? then v else length, number)
  }

  // The fields of the head from h on.
  function Fields(raw: bytes, h: nat): (fs: seq<bytes>)
    ensures forall f <- fs :: f != []
    decreases |raw| - h
  {
    if h >= |raw| then [] else
    var e := FieldEnd(raw, h);
    if e == h then [] else [raw[h..e]] + Fields(raw, e + 2)
  }

  // Every field is well formed, and the lengths declared, with one seen before, are all the same value.
  ghost predicate Agreed(fields: seq<bytes>, number: Number, before: Option<nat>, length: Option<nat>)
    requires forall f <- fields :: f != []
  {
    && (forall f <- fields :: ReadField(f, number).Ok?)
    && (forall f <- fields :: ReadField(f, number).value.Some? ==> ReadField(f, number).value == length)
    && (before.Some? ==> before == length)
    && (length.Some? ==> before == length || exists f <- fields :: ReadField(f, number) == Ok(length))
  }

  lemma {:induction false} ScanIff(raw: bytes, h: nat, before: Option<nat>, number: Number, length: Option<nat>)
    ensures Scan(raw, h, before, number) == Ok(length) <==> Agreed(Fields(raw, h), number, before, length)
    decreases |raw| - h
  {
    hide ReadField, FieldEnd;
    if h < |raw| && FieldEnd(raw, h) != h {
      var e := FieldEnd(raw, h);
      var field := raw[h..e];
      var rest := Fields(raw, e + 2);
      assert Fields(raw, h) == [field] + rest;
      assert field in Fields(raw, h);
      var v := ReadField(field, number);
      if v.Ok? && !(v.value.Some? && before.Some? && v.value != before) {
        ScanIff(raw, e + 2, if v.value.Some? then v.value else before, number, length);
      }
    }
  }

  // ---------- the request ----------

  function LineEnd(head: bytes): (e: nat)
    ensures e <= |head|
  {
    match Find(head, CRLF)
    case Some(i) => i
    case None => |head|
  }

  function HeadersOf(head: bytes): bytes {
    if LineEnd(head) + 2 <= |head| then head[LineEnd(head) + 2..] else []
  }

  function ParseHead(head: bytes, number: Number): Result<Request, ParseError> {
    var line := head[..LineEnd(head)];
    match ParseLine(line)
    case Err(bad) => Err(BadRequest(bad))
    case Ok((verb, target)) =>
      match Scan(HeadersOf(head), 0, None, number)
      case Err(bad) => Err(BadRequest(bad))
      case Ok(declared) =>
        var length := if declared.Some? then declared.value else 0;
        if verb == Post && length == 0 then Err(BadRequest(LengthRequired))
        else if length > BODY_CAP then Err(BodyTooLarge)
        else
          var start := |verb.Name()| + 1;
          var query := IndexOf(target, QUERY);
          Ok(Request(verb, start, start + (if query.Some? then query.value else |target|),
                     if query.Some? then Some(start + query.value + 1) else None, length, |head| + 4))
  }

  function ParseRequest(buf: bytes, number: Number): Result<Request, ParseError> {
    match Find(buf, TERMINATOR)
    case Some(i) => ParseHead(buf[..i], number)
    case None => if |buf| > HEADER_CAP then Err(HeadersTooLarge) else Err(Incomplete)
  }

  // Once the terminator is there, nothing that follows it changes the answer.
  lemma OnlyTheHeadMatters(buf: bytes, more: bytes, number: Number)
    requires Find(buf, TERMINATOR).Some?
    ensures ParseRequest(buf + more, number) == ParseRequest(buf, number)
  {
    FoundFirst(buf, more, TERMINATOR);
    var i := Find(buf, TERMINATOR).value;
    assert (buf + more)[..i] == buf[..i];
  }

  // The cap on heads bears on unfinished ones only: too large is the answer exactly for a buffer beyond it
  // that holds no terminator.
  lemma TooLargeIff(buf: bytes, number: Number)
    ensures ParseRequest(buf, number) == Err(HeadersTooLarge) <==>
              (forall k :: !Matches(buf, TERMINATOR, k)) && |buf| > HEADER_CAP
  {
    hide Find, ParseLine, Scan;
  }

  // What is accepted: a request line, fields that are well formed and agree on one length, a length for
  // POST, and a body within the cap, declared before any of it has arrived.
  lemma AcceptedIff(head: bytes, number: Number, req: Request)
    ensures ParseHead(head, number) == Ok(req) <==>
              exists target: bytes, declared: Option<nat> ::
                && IsRequestLine(head[..LineEnd(head)], req.verb, target)
                && Agreed(Fields(HeadersOf(head), 0), number, None, declared)
                && req.contentLength == (if declared.Some? then declared.value else 0) <= BODY_CAP
                && (req.verb == Post ==> req.contentLength > 0)
                && Spans(head, target, req)
  {
    hide ParseLine, Scan, IsRequestLine, Agreed, IndexOf, Fields, LineEnd, HeadersOf;
    var line := head[..LineEnd(head)];
    if ParseHead(head, number) == Ok(req) {
      var target := ParseLine(line).value.1;
      LineIff(line, req.verb, target);
      var declared := Scan(HeadersOf(head), 0, None, number).value;
      ScanIff(HeadersOf(head), 0, None, number, declared);
    }
    forall target: bytes, declared: Option<nat> |
        && IsRequestLine(line, req.verb, target)
        && Agreed(Fields(HeadersOf(head), 0), number, None, declared)
        && req.contentLength == (if declared.Some? then declared.value else 0) <= BODY_CAP
        && (req.verb == Post ==> req.contentLength > 0)
        && Spans(head, target, req)
      ensures ParseHead(head, number) == Ok(req)
    {
      LineIff(line, req.verb, target);
      ScanIff(HeadersOf(head), 0, None, number, declared);
    }
  }

  // The offsets: the target up to its query, the query, and the body after the terminator.
  predicate Spans(head: bytes, target: bytes, req: Request) {
    var start := |req.verb.Name()| + 1;
    var query := IndexOf(target, QUERY);
    && req.targetStart == start && req.bodyStart == |head| + 4
    && req.targetEnd == start + (if query.Some? then query.value else |target|)
    && req.queryStart == (if query.Some? then Some(start + query.value + 1) else None)
  }

  // ---------- the head is its line and its fields ----------

  // Each field with the line break before it.
  function Broken(fields: seq<bytes>): bytes {
    if fields == [] then [] else CRLF + fields[0] + Broken(fields[1..])
  }

  // No two line breaks follow each other before the terminator.
  lemma BreaksApart(buf: bytes, i: nat, p: nat)
    requires Find(buf, TERMINATOR) == Some(i) && 2 <= p <= i + 1 && buf[p - 2..p] == CRLF
    ensures buf[p..p + 2] != CRLF
  {
    hide Find;
    assert Matches(buf, TERMINATOR, i);
    assert !Matches(buf, TERMINATOR, p - 2);
    assert buf[p - 2..p + 2] == CRLF + buf[p..p + 2];
    assert TERMINATOR == CRLF + CRLF;
  }

  // The fields at h: one to the next line break, then the rest; or the last.
  lemma FieldsAt(raw: bytes, h: nat)
    requires h < |raw| && Find(raw[h..], CRLF) != Some(0)
    ensures match Find(raw[h..], CRLF)
            case None => Broken(Fields(raw, h)) == CRLF + raw[h..]
            case Some(j) => Broken(Fields(raw, h)) == CRLF + raw[h..h + j] + Broken(Fields(raw, h + j + 2))
  {
    hide Find;
    var e := FieldEnd(raw, h);
    var rest := Fields(raw, e + 2);
    assert Fields(raw, h) == [raw[h..e]] + rest && ([raw[h..e]] + rest)[1..] == rest;
    if e == |raw| {
      assert Broken(rest) == [];
      assert raw[h..e] == raw[h..];
    }
  }

  // From p on: a field of j bytes, a line break, the rest.
  lemma Pieces(buf: bytes, i: nat, q: nat, h: nat, j: nat)
    requires q + h + j + 2 <= i <= |buf| && Matches(buf[q..i][h..], CRLF, j)
    ensures var p := q + h;
            && buf[p + j..p + j + 2] == CRLF
            && buf[p..i] == buf[q..i][h..h + j] + (CRLF + buf[p + j + 2..i])
  {
    var p := q + h;
    assert buf[q..i][h..] == buf[p..i];
    SliceOfSlice(buf, p, i, j, j + 2);
    SliceOfSlice(buf, q, i, h, h + j);
    assert buf[p..i] == buf[p..p + j] + (buf[p + j..p + j + 2] + buf[p + j + 2..i]);
  }

  lemma {:induction false} FieldsCover(buf: bytes, i: nat, q: nat, h: nat)
    requires Find(buf, TERMINATOR) == Some(i) && 2 <= q && q + h < i && buf[q + h - 2..q + h] == CRLF
    ensures CRLF + buf[q + h..i] == Broken(Fields(buf[q..i], h))
    decreases i - h
  {
    hide Find, Fields, Broken;
    assert Matches(buf, TERMINATOR, i);
    var raw, p := buf[q..i], q + h;
    assert raw[h..] == buf[p..i];
    BreaksApart(buf, i, p);
    if Find(raw[h..], CRLF).Some? {
      var j := Find(raw[h..], CRLF).value;
      Pieces(buf, i, q, h, j);
      BreakBeforeEnd(buf, i, p + j + 2);
      FieldsCover(buf, i, q, h + j + 2);
      assert CRLF + buf[p..i] == CRLF + raw[h..h + j] + (CRLF + buf[p + j + 2..i]);
    }
    FieldsAt(raw, h);
  }

  // A line break ends before the terminator begins.
  lemma BreakBeforeEnd(buf: bytes, i: nat, next: nat)
    requires Find(buf, TERMINATOR) == Some(i) && 2 <= next <= i && buf[next - 2..next] == CRLF
    ensures next < i
  {
    assert Matches(buf, TERMINATOR, i);
    assert buf[i..i + 2] == buf[i..i + 4][..2] == CRLF;
    BreaksApart(buf, i, next);
  }

  // Nothing of an accepted head is skipped: it is the request line and then, each after a line break, the
  // fields the scan looked at. The scan's way out at an empty field is never taken.
  lemma HeadIsLineAndFields(buf: bytes, i: nat)
    requires Find(buf, TERMINATOR) == Some(i)
    ensures var head := buf[..i]; head == head[..LineEnd(head)] + Broken(Fields(HeadersOf(head), 0))
  {
    hide Find, Fields, Broken;
    var head := buf[..i];
    assert Matches(buf, TERMINATOR, i);
    match Find(head, CRLF)
    case None =>
      NoFields(HeadersOf(head));
    case Some(le) =>
      assert buf[le..le + 2] == head[le..le + 2] == CRLF;
      BreakBeforeEnd(buf, i, le + 2);
      FieldsCover(buf, i, le + 2, 0);
      assert HeadersOf(head) == buf[le + 2..i];
      assert head == head[..le] + (CRLF + buf[le + 2..i]);
  }

  lemma NoFields(raw: bytes)
    requires raw == []
    ensures Broken(Fields(raw, 0)) == []
  {
  }

  // ---------- the parser ----------

  method ScanFields(raw: bytes, number: Number) returns (r: Result<Option<nat>, Bad>)
    ensures r == Scan(raw, 0, None, number)
  {
    hide FieldEnd, ReadField;
    var length: Option<nat> := None;
    var h := 0;
    while h < |raw|
      invariant Scan(raw, 0, None, number) == Scan(raw, h, length, number)
      decreases |raw| - h
    {
      var e := FieldEnd(raw, h);
      if e == h {
        break;
      }
      var said := ReadField(raw[h..e], number);
      if said.Err? {
        return Err(said.error);
      }
      if said.value.Some? {
        if length.Some? && length != said.value {
          return Err(ConflictingLength);
        }
        length := said.value;
      }
      h := e + 2;
    }
    return Ok(length);
  }

  method Parse(buf: bytes, number: Number) returns (r: Result<Request, ParseError>)
    ensures r == ParseRequest(buf, number)
  {
    hide Find, ParseLine, LineEnd, HeadersOf, Scan, IndexOf;
    var end := Find(buf, TERMINATOR);
    if end.None? {
      if |buf| > HEADER_CAP {
        return Err(HeadersTooLarge);
      }
      return Err(Incomplete);
    }
    var head := buf[..end.value];
    var line := ParseLine(head[..LineEnd(head)]);
    if line.Err? {
      return Err(BadRequest(line.error));
    }
    var (verb, target) := line.value;
    var declared := ScanFields(HeadersOf(head), number);
    if declared.Err? {
      return Err(BadRequest(declared.error));
    }
    var length := if declared.value.Some? then declared.value.value else 0;
    if verb == Post && length == 0 {
      return Err(BadRequest(LengthRequired));
    }
    if length > BODY_CAP {
      return Err(BodyTooLarge);
    }
    var start := |verb.Name()| + 1;
    var query := IndexOf(target, QUERY);
    var targetEnd, queryStart := start + |target|, None;
    if query.Some? {
      targetEnd, queryStart := start + query.value, Some(start + query.value + 1);
    }
    return Ok(Request(verb, start, targetEnd, queryStart, length, end.value + 4));
  }

  // ---------- a head beyond the cap ----------

  const GET_ROOT: bytes := [0x47, 0x45, 0x54, 0x20, 0x2f, 0x20] + VERSION

  // GET / HTTP/1.1, and one field of n bytes for a value.
  function LongHead(n: nat): (head: bytes)
    ensures |head| == 18 + n
  {
    GET_ROOT + CRLF + ([0x41, COLON] + seq(n, _ => 0x61))
  }

  // The only carriage return of the head is the one that ends its line.
  lemma LongHeadEnds(n: nat)
    ensures Find(LongHead(n) + TERMINATOR, TERMINATOR) == Some(18 + n)
    ensures LineEnd(LongHead(n)) == 14
  {
    hide Find;
    var head := LongHead(n);
    var buf := head + TERMINATOR;
    assert forall k :: 0 <= k < 18 + n && k != 14 ==> head[k] != 0x0d;
    assert forall k :: 0 <= k < 18 + n ==> buf[k] == head[k];
    assert head[14..16] == CRLF && Matches(head, CRLF, 14);
    assert buf[18 + n..18 + n + 4] == TERMINATOR && Matches(buf, TERMINATOR, 18 + n);
    forall k | 0 <= k < 18 + n ensures !Matches(buf, TERMINATOR, k) {
      NoMatchAt(buf, TERMINATOR, k, if k == 14 then 2 else 0);
    }
    forall k | 0 <= k < 14 ensures !Matches(head, CRLF, k) {
      NoMatchAt(head, CRLF, k, 0);
    }
  }

  // With its terminator a head of any size is accepted: 18 bytes and n more.
  lemma LongHeadAccepted(n: nat, number: Number)
    ensures ParseRequest(LongHead(n) + TERMINATOR, number) == Ok(Request(Get, 4, 5, None, 0, 18 + n + 4))
  {
    hide Find, ParseLine, Scan, LineEnd, LongHead, HeadersOf;
    LongHeadEnds(n);
    assert (LongHead(n) + TERMINATOR)[..18 + n] == LongHead(n);
    LongLine(n);
    LongFields(n, number);
    assert IndexOf([0x2f], QUERY) == None;
  }

  lemma LongLine(n: nat)
    ensures ParseLine(LongHead(n)[..14]) == Ok((Get, [0x2f]))
  {
    hide ParseLine;
    assert LongHead(n)[..14] == GET_ROOT;
    assert GET_ROOT == Get.Name() + ([SP] + ([0x2f] + ([SP] + VERSION)));
    LineIff(GET_ROOT, Get, [0x2f]);
  }

  lemma LongFields(n: nat, number: Number)
    ensures HeadersOf(LongHead(n)) == LongHead(n)[16..]
    ensures Scan(HeadersOf(LongHead(n)), 0, None, number) == Ok(None)
  {
    LongHeadEnds(n);
    hide Find;
    var head := LongHead(n);
    var raw := head[16..];
    assert raw[0] == 0x41 && raw[1] == COLON && raw[0..] == raw;
    assert forall k :: 0 <= k < |raw| ==> raw[k] == head[16 + k] && raw[k] != 0x0d;
    forall k ensures !Matches(raw, CRLF, k) {
      NoMatchAt(raw, CRLF, k, 0);
    }
    assert FieldEnd(raw, 0) == |raw|;
    var field := raw[0..|raw|];
    assert field == raw && IndexOf(field, COLON) == Some(1);
    assert |field[..1]| == 1;
    assert ReadField(field, number) == Ok(None);
  }

  // So a head beyond the cap of 8192 bytes gets through when it arrives with its terminator, and is refused
  // when the same bytes arrive without it.
  lemma LargeHeadGetsThrough(number: Number)
    ensures var head := LongHead(HEADER_CAP);
            && |head| > HEADER_CAP
            && ParseRequest(head + TERMINATOR, number).Ok?
            && ParseRequest(head, number) == Err(HeadersTooLarge)
  {
    LongHeadAccepted(HEADER_CAP, number);
    LongHeadEnds(HEADER_CAP);
    var head := LongHead(HEADER_CAP);
    hide Find, LongHead, ParseRequest;
    forall k ensures !Matches(head, TERMINATOR, k) {
      if Matches(head, TERMINATOR, k) {
        MatchesLonger(head, TERMINATOR, TERMINATOR, k);
      }
    }
    TooLargeIff(head, number);
  }
}
