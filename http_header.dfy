/** ExtractHTTPHeaderValue of src/util.h: the value of the first header
    line that mentions `key:`, read after that line's first colon and
    trimmed. The header text is split into lines the way std::getline on
    an istringstream splits it. */
module HttpHeader {
  import opened Bytes

  const LF: byte := 0x0A
  const CR: byte := 0x0D
  const Colon: seq<byte> := [0x3A]

  /** The characters find_first_not_of(" \t") skips. */
  predicate IsLeadingSpace(b: byte)
  {
    b == 0x20 || b == 0x09
  }

  /** The characters find_last_not_of(" \r\n") skips. */
  predicate IsTrailingSpace(b: byte)
  {
    b == 0x20 || b == CR || b == LF
  }

  /** The lines std::getline yields: the text split at every LF, without
      the LF, and no empty line after a final LF. */
  function Lines(s: seq<byte>): (r: seq<seq<byte>>)
    decreases |s|
    ensures forall i | 0 <= i < |r| :: LF !in r[i]
  {
    if s == [] then []
    else
      match Find(s, [LF], 0)
      case None =>
        assert forall k | 0 <= k < |s| :: !OccursAt(s, [LF], k) ==> s[k] != LF;
        [s]
      case Some(k) =>
        assert forall j | 0 <= j < k :: !OccursAt(s, [LF], j) ==> s[j] != LF;
        [s[..k]] + Lines(s[k + 1..])
  }

  /** A line without LF followed by LF is the first line of the text. */
  lemma {:induction false} LinesCons(a: seq<byte>, b: seq<byte>)
    requires LF !in a
    ensures Lines(a + [LF] + b) == [a] + Lines(b)
  {
    var s := a + [LF] + b;
    assert OccursAt(s, [LF], |a|) by { assert s[|a|..|a| + 1] == [LF]; }
    forall j | 0 <= j < |a|
      ensures !OccursAt(s, [LF], j)
    {
      assert s[j] == a[j];
      OccursAtHead(s, [LF], j);
    }
    FindIs(s, [LF], |a|);
    assert s[..|a|] == a;
    assert s[|a| + 1..] == b;
  }

  /** A text without LF is one line (or none when empty). */
  lemma {:induction false} LinesLast(a: seq<byte>)
    requires LF !in a && a != []
    ensures Lines(a) == [a]
  {
    forall k: nat | k + 1 <= |a|
      ensures !OccursAt(a, [LF], k)
    {
      assert a[k..k + 1][0] == a[k];
    }
  }

  /** std::string::find_first_not_of(" \t"). */
  function FirstNonBlank(v: seq<byte>): (r: Option<nat>)
    ensures r.Some? ==> r.value < |v| && !IsLeadingSpace(v[r.value])
    ensures forall i | 0 <= i < |v| && (r.None? || i < r.value) :: IsLeadingSpace(v[i])
  {
    if v == [] then None
    else if !IsLeadingSpace(v[0]) then Some(0)
    else
      match FirstNonBlank(v[1..])
      case None => None
      case Some(k) => Some(k + 1)
  }

  /** std::string::find_last_not_of(" \r\n"). */
  function LastNonTrailing(v: seq<byte>): (r: Option<nat>)
    ensures r.Some? ==> r.value < |v| && !IsTrailingSpace(v[r.value])
    ensures forall i | 0 <= i < |v| && (r.None? || r.value < i) :: IsTrailingSpace(v[i])
  {
    if v == [] then None
    else if !IsTrailingSpace(v[|v| - 1]) then Some(|v| - 1)
    else LastNonTrailing(v[..|v| - 1])
  }

  /** size_t arithmetic: a difference that goes below zero wraps. */
  function SizeT(x: int): nat
  {
    x % 0x1_0000_0000_0000_0000
  }

  /** std::string::substr(pos, n): at most n characters from pos. */
  function Substr(v: seq<byte>, pos: nat, n: nat): (r: seq<byte>)
    requires pos <= |v|
    ensures |r| == if n < |v| - pos then n else |v| - pos
    ensures r == v[pos..pos + |r|]
  {
    if n < |v| - pos then v[pos..pos + n] else v[pos..]
  }

  /** The trimmed text after the colon as the source computes it: from
      the first non-" \t" character, for end - start + 1 characters
      computed in size_t; None where either search finds nothing. */
  function TrimAsWritten(v: seq<byte>): Option<seq<byte>>
  {
    var start, end := FirstNonBlank(v), LastNonTrailing(v);
    if start.None? || end.None? then None
    else Some(Substr(v, start.value, SizeT(end.value as int - start.value as int + 1)))
  }

  /** The evidently intended trimming: None also where the first kept
      character would lie after the last one, so that such a value is
      skipped like a value of blanks. */
  function Trim(v: seq<byte>): Option<seq<byte>>
  {
    var start, end := FirstNonBlank(v), LastNonTrailing(v);
    if start.None? || end.None? || start.value > end.value then None
    else Some(v[start.value..end.value + 1])
  }

  /** One line as the source handles it: None where scanning goes on to the
      next line, Some(value) where ExtractHTTPHeaderValue returns. */
  function LineValueAsWritten(line: seq<byte>, search: seq<byte>): Option<seq<byte>>
  {
    if !Contains(line, search) then None
    else
      match Find(line, Colon, 0)
      case None => None
      case Some(c) => TrimAsWritten(line[c + 1..])
  }

  /** The same with the corrected trimming. */
  function LineValue(line: seq<byte>, search: seq<byte>): Option<seq<byte>>
  {
    if !Contains(line, search) then None
    else
      match Find(line, Colon, 0)
      case None => None
      case Some(c) => Trim(line[c + 1..])
  }

  function ScanAsWritten(lines: seq<seq<byte>>, search: seq<byte>): seq<byte>
  {
    if lines == [] then []
    else
      match LineValueAsWritten(lines[0], search)
      case Some(v) => v
      case None => ScanAsWritten(lines[1..], search)
  }

  function Scan(lines: seq<seq<byte>>, search: seq<byte>): seq<byte>
  {
    if lines == [] then []
    else
      match LineValue(lines[0], search)
      case Some(v) => v
      case None => Scan(lines[1..], search)
  }

  /** ExtractHTTPHeaderValue as the source computes it. */
  function HeaderValueAsWritten(headers: seq<byte>, key: seq<byte>): seq<byte>
  {
    ScanAsWritten(Lines(headers), key + Colon)
  }

  /** ExtractHTTPHeaderValue with the start-after-end case skipped, as the
      source evidently intends. The handshakes use HeaderValueAsWritten;
      ScanAgrees says where the two readings agree. */
  function HeaderValue(headers: seq<byte>, key: seq<byte>): seq<byte>
  {
    Scan(Lines(headers), key + Colon)
  }

  /** ExtractHTTPHeaderValue: read the header text line by line; on the
      first line that contains `key:`, take the text after its first
      colon, find the first character not in " \t" and the last not in
      " \r\n", and return the characters between them. */
  method ExtractHTTPHeaderValue(headers: seq<byte>, key: seq<byte>) returns (value: seq<byte>)
    ensures value == HeaderValueAsWritten(headers, key)
  {
    var search := key + Colon;
    var pos := 0;
    while pos < |headers|
      invariant pos <= |headers|
      invariant HeaderValueAsWritten(headers, key) == ScanAsWritten(Lines(headers[pos..]), search)
      decreases |headers| - pos
    {
      var line, next := GetLine(headers, pos);
      var found, v := ValueOfLine(line, search);
      if found {
        return v;
      }
      pos := next;
    }
    assert headers[pos..] == [];
    return [];
  }

  /** std::getline from position `pos`: the text up to the next LF, and
      where the following line starts. */
  method GetLine(headers: seq<byte>, pos: nat) returns (line: seq<byte>, next: nat)
    requires pos < |headers|
    ensures pos < next <= |headers|
    ensures Lines(headers[pos..]) == [line] + Lines(headers[next..])
  {
    var rest := headers[pos..];
    match Find(rest, [LF], 0) {
      case None =>
        line, next := rest, |headers|;
        assert headers[next..] == [];
      case Some(k) =>
        line, next := rest[..k], pos + k + 1;
        assert headers[next..] == rest[k + 1..];
    }
  }

  /** The body of the line loop: whether the source returns on this line,
      and with what. */
  method ValueOfLine(line: seq<byte>, search: seq<byte>) returns (found: bool, value: seq<byte>)
    ensures found <==> LineValueAsWritten(line, search).Some?
    ensures found ==> value == LineValueAsWritten(line, search).value
  {
    hide Find, FirstNonBlank, LastNonTrailing, Substr, SizeT;
    found, value := false, [];
    if Find(line, search, 0).Some? {
      var colon := Find(line, Colon, 0);
      if colon.Some? {
        var v := line[colon.value + 1..];
        var start := FirstNonBlank(v);
        var end := LastNonTrailing(v);
        if start.Some? && end.Some? {
          found, value := true, Substr(v, start.value, SizeT(end.value as int - start.value as int + 1));
        }
      }
    }
  }

  /** With the correction, a returned value is trimmed on both sides. */
  lemma {:induction false} LineValueTrimmed(line: seq<byte>, search: seq<byte>)
    requires LineValue(line, search).Some?
    ensures var v := LineValue(line, search).value;
      v != [] && !IsLeadingSpace(v[0]) && !IsTrailingSpace(v[|v| - 1]) && (LF !in line ==> LF !in v)
  {
    var c := Find(line, Colon, 0).value;
    var v := line[c + 1..];
    assert LineValue(line, search) == Trim(v);
    hide LineValue, Find, Contains, Trim;
    TrimTrimmed(v);
    if LF !in line {
      NotInSlice(line, LF, c + 1, |line|);
    }
  }

  /** What the corrected trimming keeps starts and ends with a character
      it does not strip. */
  lemma {:induction false} TrimTrimmed(v: seq<byte>)
    requires Trim(v).Some?
    ensures var r := Trim(v).value;
      r != [] && !IsLeadingSpace(r[0]) && !IsTrailingSpace(r[|r| - 1]) && (LF !in v ==> LF !in r)
  {
    var s, e := FirstNonBlank(v).value, LastNonTrailing(v).value;
    if LF !in v {
      NotInSlice(v, LF, s, e + 1);
    }
  }

  lemma {:induction false} NotInSlice(a: seq<byte>, x: byte, i: nat, j: nat)
    requires x !in a && i <= j <= |a|
    ensures x !in a[i..j]
  {
    assert forall k | 0 <= k < j - i :: a[i..j][k] == a[i + k];
  }

  /** A line gives a value exactly when it contains the search text and,
      after its first colon, some character outside " \t" comes no later
      than some character outside " \r\n". */
  lemma {:induction false} LineValueExists(line: seq<byte>, search: seq<byte>, c: nat)
    requires Contains(line, search) && Find(line, Colon, 0) == Some(c)
    ensures var v := line[c + 1..];
      LineValue(line, search).Some? <==>
      exists i, j | 0 <= i <= j < |v| :: !IsLeadingSpace(v[i]) && !IsTrailingSpace(v[j])
  {
    var v := line[c + 1..];
    assert LineValue(line, search) == Trim(v);
    hide LineValue, Find, Contains;
    var s, e := FirstNonBlank(v), LastNonTrailing(v);
    if exists i, j | 0 <= i <= j < |v| :: !IsLeadingSpace(v[i]) && !IsTrailingSpace(v[j]) {
      var i, j :| 0 <= i <= j < |v| && !IsLeadingSpace(v[i]) && !IsTrailingSpace(v[j]);
      assert s.Some? && s.value <= i;
      assert e.Some? && j <= e.value;
    }
  }

  /** The result of the corrected extraction is the value of the first
      line that gives one, and "" when no line does. */
  lemma {:induction false} ScanFirstValue(lines: seq<seq<byte>>, search: seq<byte>, i: nat)
    requires i < |lines| && LineValue(lines[i], search).Some?
    requires forall j | 0 <= j < i :: LineValue(lines[j], search).None?
    ensures Scan(lines, search) == LineValue(lines[i], search).value
    decreases i
  {
    if i > 0 {
      assert LineValue(lines[0], search).None?;
      ScanFirstValue(lines[1..], search, i - 1);
    }
  }

  /** The same for the source's reading. */
  lemma {:induction false} ScanAsWrittenFirstValue(lines: seq<seq<byte>>, search: seq<byte>, i: nat)
    requires i < |lines| && LineValueAsWritten(lines[i], search).Some?
    requires forall j | 0 <= j < i :: LineValueAsWritten(lines[j], search).None?
    ensures ScanAsWritten(lines, search) == LineValueAsWritten(lines[i], search).value
    decreases i
  {
    if i > 0 {
      assert LineValueAsWritten(lines[0], search).None?;
      ScanAsWrittenFirstValue(lines[1..], search, i - 1);
    }
  }

  lemma {:induction false} ScanNoValue(lines: seq<seq<byte>>, search: seq<byte>)
    requires forall j | 0 <= j < |lines| :: LineValue(lines[j], search).None?
    ensures Scan(lines, search) == []
    decreases |lines|
  {
    if lines != [] {
      ScanNoValue(lines[1..], search);
    }
  }

  /** The corrected result is "" or trimmed on both sides, and never holds
      a line break. */
  lemma {:induction false} ScanTrimmed(lines: seq<seq<byte>>, search: seq<byte>)
    requires forall j | 0 <= j < |lines| :: LF !in lines[j]
    ensures var v := Scan(lines, search);
      v == [] || (!IsLeadingSpace(v[0]) && !IsTrailingSpace(v[|v| - 1]) && LF !in v)
    decreases |lines|
  {
    if lines != [] {
      if LineValue(lines[0], search).Some? {
        LineValueTrimmed(lines[0], search);
      } else {
        ScanTrimmed(lines[1..], search);
      }
    }
  }

  /** The corrected value of a header text is "" or trimmed on both sides
      and holds no line break. */
  lemma {:induction false} HeaderValueTrimmed(headers: seq<byte>, key: seq<byte>)
    ensures var v := HeaderValue(headers, key);
      v == [] || (!IsLeadingSpace(v[0]) && !IsTrailingSpace(v[|v| - 1]) && LF !in v)
  {
    ScanTrimmed(Lines(headers), key + Colon);
  }

  /** A header that no line mentions gives "" (the match is a
      case-sensitive substring test for `key:`). */
  lemma {:induction false} HeaderValueNotFound(headers: seq<byte>, key: seq<byte>)
    requires forall l | l in Lines(headers) :: !Contains(l, key + Colon)
    ensures HeaderValue(headers, key) == [] && HeaderValueAsWritten(headers, key) == []
  {
    var lines := Lines(headers);
    assert forall j | 0 <= j < |lines| :: lines[j] in lines;
    ScanNoValue(lines, key + Colon);
    ScanAsWrittenNoMatch(lines, key + Colon);
  }

  lemma {:induction false} ScanAsWrittenNoMatch(lines: seq<seq<byte>>, search: seq<byte>)
    requires forall j | 0 <= j < |lines| :: !Contains(lines[j], search)
    ensures ScanAsWritten(lines, search) == []
    decreases |lines|
  {
    if lines != [] {
      ScanAsWrittenNoMatch(lines[1..], search);
    }
  }

  /** The start-after-end case: the first character kept by the trim lies
      after the last one, and the source returns from a line the corrected
      reading skips. When the two are adjacent the size_t count is 0 and
      the value is ""; further apart the count wraps and the value is
      everything from the start. */
  predicate Wraps(line: seq<byte>, search: seq<byte>)
  {
    LineValueAsWritten(line, search).Some? && LineValue(line, search).None?
  }

  /** Outside the start-after-end case both readings agree line by line. */
  lemma {:induction false} LineValueAgrees(line: seq<byte>, search: seq<byte>)
    requires |line| < 0x1_0000_0000_0000_0000
    requires !Wraps(line, search)
    ensures LineValueAsWritten(line, search) == LineValue(line, search)
  {
  }

  /** So on headers without such a line the source computes the corrected
      value. */
  lemma {:induction false} ScanAgrees(lines: seq<seq<byte>>, search: seq<byte>)
    requires forall j | 0 <= j < |lines| :: |lines[j]| < 0x1_0000_0000_0000_0000 && !Wraps(lines[j], search)
    ensures ScanAsWritten(lines, search) == Scan(lines, search)
    decreases |lines|
  {
    if lines != [] {
      LineValueAgrees(lines[0], search);
      ScanAgrees(lines[1..], search);
    }
  }

  /** The start-after-end case with a wrapping count: for the header line "K:\t \r" the value
      starts at the CR (index 2 of "\t \r") and ends at the tab (index 0),
      the length 0 - 2 + 1 wraps, and the source returns "\r", which it
      meant to trim; with the correction the line is skipped. */
  lemma {:induction false} WrapCounterexample()
    ensures var headers: seq<byte> := [0x4B, 0x3A, 0x09, 0x20, 0x0D];
      HeaderValueAsWritten(headers, [0x4B]) == [CR] &&
      HeaderValue(headers, [0x4B]) == []
  {
    var headers: seq<byte> := [0x4B, 0x3A, 0x09, 0x20, 0x0D];
    var search: seq<byte> := [0x4B] + Colon;
    var v: seq<byte> := [0x09, 0x20, 0x0D];
    WrapLine(headers, search);
    WrapEnds(v);
    hide Lines, Find, Contains, FirstNonBlank, LastNonTrailing;
    assert headers[2..] == v;
    assert SizeT(0 - 2 + 1) >= 1;
    assert TrimAsWritten(v) == Some([CR]);
    assert Trim(v) == None;
    assert LineValueAsWritten(headers, search) == Some([CR]);
    assert LineValue(headers, search) == None;
    assert [headers][1..] == [];
    assert Scan([headers], search) == [];
  }

  /** The header text of the counterexample is one line, mentions "K:",
      and has its first colon at index 1. */
  lemma {:induction false} WrapLine(headers: seq<byte>, search: seq<byte>)
    requires headers == [0x4B, 0x3A, 0x09, 0x20, 0x0D] && search == [0x4B] + Colon
    ensures Lines(headers) == [headers] && Contains(headers, search) && Find(headers, Colon, 0) == Some(1)
  {
    LinesLast(headers);
    assert OccursAt(headers, search, 0) by { assert headers[0..2] == search; }
    assert Find(headers, Colon, 0) == Some(1) by {
      assert !OccursAt(headers, Colon, 0) by { OccursAtHead(headers, Colon, 0); }
      assert headers[1..2] == Colon;
    }
  }

  /** In "\t \r" the first character outside " \t" is the CR at index 2
      and the last outside " \r\n" is the tab at index 0. */
  lemma {:induction false} WrapEnds(v: seq<byte>)
    requires v == [0x09, 0x20, 0x0D]
    ensures FirstNonBlank(v) == Some(2) && LastNonTrailing(v) == Some(0)
  {
    assert v[1..] == [0x20, 0x0D] && v[1..][1..] == [0x0D];
    assert FirstNonBlank(v[1..][1..]) == Some(0);
    assert FirstNonBlank(v[1..]) == Some(1);
    assert v[..2] == [0x09, 0x20] && v[..2][..1] == [0x09];
  }

  /** The start-after-end case with adjacent positions: in "K:\t\r" the
      value "\t\r" starts at the CR (index 1) and ends at the tab
      (index 0), the count 0 - 1 + 1 is 0, and the source returns "" from
      that line at once, so the later line "K: v" is never read; with the
      correction the first line is skipped and the second gives "v". */
  lemma {:induction false} AdjacentCounterexample()
    ensures var headers: seq<byte> := [0x4B, 0x3A, 0x09, 0x0D, 0x0A, 0x4B, 0x3A, 0x20, 0x76, 0x0D];
      HeaderValueAsWritten(headers, [0x4B]) == [] &&
      HeaderValue(headers, [0x4B]) == [0x76]
  {
    var first: seq<byte> := [0x4B, 0x3A, 0x09, 0x0D];
    var second: seq<byte> := [0x4B, 0x3A, 0x20, 0x76, 0x0D];
    var headers: seq<byte> := [0x4B, 0x3A, 0x09, 0x0D, 0x0A, 0x4B, 0x3A, 0x20, 0x76, 0x0D];
    var search: seq<byte> := [0x4B] + Colon;
    hide Lines, LineValue, LineValueAsWritten;
    assert headers == first + [LF] + second;
    TwoLines(first, second);
    AdjacentLine(first, search);
    ValueLine(second, search);
    assert [first, second][1..] == [second];
    assert Scan([second], search) == [0x76];
    assert Scan([first, second], search) == [0x76];
  }

  /** Two lines without LF joined by one LF. */
  lemma {:induction false} TwoLines(first: seq<byte>, second: seq<byte>)
    requires first == [0x4B, 0x3A, 0x09, 0x0D] && second == [0x4B, 0x3A, 0x20, 0x76, 0x0D]
    ensures Lines(first + [LF] + second) == [first, second]
  {
    assert LF !in first && LF !in second;
    LinesCons(first, second);
    LinesLast(second);
  }

  /** The line "K:\t\r": the source returns "" from it, the correction
      skips it. */
  lemma {:induction false} AdjacentLine(line: seq<byte>, search: seq<byte>)
    requires line == [0x4B, 0x3A, 0x09, 0x0D] && search == [0x4B] + Colon
    ensures LineValueAsWritten(line, search) == Some([]) && LineValue(line, search) == None
  {
    ColonAtOne(line, search);
    AdjacentEnds(line[2..]);
    hide Find, Contains, FirstNonBlank, LastNonTrailing;
    assert SizeT(0 - 1 + 1) == 0;
    assert TrimAsWritten(line[2..]) == Some([]);
    assert Trim(line[2..]) == None;
  }

  /** The line "K: v\r" gives "v" in the corrected reading. */
  lemma {:induction false} ValueLine(line: seq<byte>, search: seq<byte>)
    requires line == [0x4B, 0x3A, 0x20, 0x76, 0x0D] && search == [0x4B] + Colon
    ensures LineValue(line, search) == Some([0x76])
  {
    ColonAtOne(line, search);
    ValueEnds(line[2..]);
    hide Find, Contains, FirstNonBlank, LastNonTrailing;
    assert line[2..][1..2] == [0x76];
  }

  /** A line that starts with "K:" mentions "K:" and has its first colon at
      index 1. */
  lemma {:induction false} ColonAtOne(line: seq<byte>, search: seq<byte>)
    requires |line| >= 2 && line[0] == 0x4B && line[1] == 0x3A && search == [0x4B] + Colon
    ensures Contains(line, search) && Find(line, Colon, 0) == Some(1)
  {
    assert OccursAt(line, search, 0) by { assert line[0..2] == search; }
    assert Find(line, Colon, 0) == Some(1) by {
      assert !OccursAt(line, Colon, 0) by { OccursAtHead(line, Colon, 0); }
      assert line[1..2] == Colon;
      FindIs(line, Colon, 1);
    }
  }

  /** In "\t\r" the first character outside " \t" is the CR at index 1 and
      the last outside " \r\n" is the tab at index 0. */
  lemma {:induction false} AdjacentEnds(v: seq<byte>)
    requires v == [0x09, 0x0D]
    ensures FirstNonBlank(v) == Some(1) && LastNonTrailing(v) == Some(0)
  {
    assert v[1..] == [0x0D] && v[..1] == [0x09];
  }

  /** In " v\r" the value "v" is both the first and the last kept character. */
  lemma {:induction false} ValueEnds(v: seq<byte>)
    requires v == [0x20, 0x76, 0x0D]
    ensures FirstNonBlank(v) == Some(1) && LastNonTrailing(v) == Some(1)
  {
    assert v[1..] == [0x76, 0x0D] && v[..2] == [0x20, 0x76];
  }
}
