/** The clipboard text format: a three-letter prefix, the payload, and a fixed
    separator that must be found again. */
module Guid {
  import opened Bytes

  // {4CFF57F7-BEDD-43d5-AE8F-27A61E886F2F}
  const SEPARATOR: seq<byte> := [
    0x7B, 0x34, 0x43, 0x46, 0x46, 0x35, 0x37, 0x46, 0x37, 0x2D,
    0x42, 0x45, 0x44, 0x44, 0x2D, 0x34, 0x33, 0x64, 0x35, 0x2D,
    0x41, 0x45, 0x38, 0x46, 0x2D, 0x32, 0x37, 0x41, 0x36, 0x31,
    0x45, 0x38, 0x38, 0x36, 0x46, 0x32, 0x46, 0x7D
  ]

  const TXT: seq<byte> := [0x54, 0x58, 0x54]
  const UNI: seq<byte> := [0x55, 0x4E, 0x49]
  const RTF: seq<byte> := [0x52, 0x54, 0x46]
  const HTM: seq<byte> := [0x48, 0x54, 0x4D]

  function Generate(payload: seq<byte>): seq<byte> {
    TXT + payload + SEPARATOR
  }

  predicate MatchAt(s: seq<byte>, pattern: seq<byte>, i: int) {
    0 <= i && i + |pattern| <= |s| && s[i..i + |pattern|] == pattern
  }

  // strings.Index
  function Index(s: seq<byte>, pattern: seq<byte>): int {
    if |s| < |pattern| || s == [] then -1
    else if s[..|pattern|] == pattern then 0
    else
      var i := Index(s[1..], pattern);
      if i < 0 then -1 else i + 1
  }

  lemma MatchShifts(s: seq<byte>, pattern: seq<byte>, j: nat)
    requires s != []
    ensures MatchAt(s, pattern, j + 1) <==> MatchAt(s[1..], pattern, j)
  {
    if j + 1 + |pattern| <= |s| {
      assert s[1..][j..j + |pattern|] == s[j + 1..j + 1 + |pattern|];
    }
  }

  lemma {:induction false} IndexIsFirst(s: seq<byte>, pattern: seq<byte>)
    requires pattern != []
    ensures Index(s, pattern) < 0 || MatchAt(s, pattern, Index(s, pattern))
    ensures forall j :: MatchAt(s, pattern, j) ==> 0 <= Index(s, pattern) <= j
    decreases |s|
  {
    if |s| >= |pattern| {
      assert s[0..|pattern|] == s[..|pattern|];
      if s[..|pattern|] != pattern {
        IndexIsFirst(s[1..], pattern);
        var i := Index(s[1..], pattern);
        if i >= 0 {
          MatchShifts(s, pattern, i);
        }
        forall j | MatchAt(s, pattern, j)
          ensures 0 <= i <= j - 1
        {
          MatchShifts(s, pattern, j - 1);
        }
      }
    }
  }

  predicate Contains(s: seq<byte>, pattern: seq<byte>) {
    Index(s, pattern) >= 0
  }

  // s up to its first separator.
  function BeforeFirst(s: seq<byte>): (r: seq<byte>)
    ensures r <= s
  {
    IndexIsFirst(s, SEPARATOR);
    var i := Index(s, SEPARATOR);
    if i < 0 then s else s[..i]
  }

  // strings.TrimRight(s, "\x00")
  function TrimNul(s: seq<byte>): (r: seq<byte>)
    ensures r <= s
    ensures s == [] || s[|s| - 1] != 0 ==> r == s
    ensures r == [] || r[|r| - 1] != 0
    ensures forall i :: |r| <= i < |s| ==> s[i] == 0
  {
    if s != [] && s[|s| - 1] == 0 then TrimNul(s[..|s| - 1]) else s
  }

  predicate HasFormatPrefix(s: seq<byte>) {
    |s| >= 3 && s[..3] in {TXT, UNI, RTF, HTM}
  }

  // ParseMWBClipboardFormat; it never reports an error.
  function Parse(formatted: seq<byte>): seq<byte> {
    TrimNul(BeforeFirst(if HasFormatPrefix(formatted) then formatted[3..] else formatted))
  }

  // ---- Searching past a payload --------------------------------------------

  // No proper prefix of p is a suffix of it, because its first byte does not recur.
  ghost predicate Borderless(p: seq<byte>) {
    p != [] && forall k :: 0 < k < |p| ==> p[k] != p[0]
  }

  lemma SeparatorBorderless()
    ensures Borderless(SEPARATOR)
  {
  }

  lemma MatchInFront(a: seq<byte>, b: seq<byte>, pattern: seq<byte>, j: nat)
    requires j + |pattern| <= |a|
    ensures MatchAt(a + b, pattern, j) <==> MatchAt(a, pattern, j)
  {
    assert (a + b)[j..j + |pattern|] == a[j..j + |pattern|];
  }

  // No occurrence starts inside the payload and ends inside the pattern after it.
  lemma NoStraddle(payload: seq<byte>, p: seq<byte>, tail: seq<byte>, j: nat)
    requires Borderless(p) && MatchAt(payload + p + tail, p, j)
    ensures j + |p| <= |payload| || j >= |payload|
  {
    var s := payload + p + tail;
    assert s[|payload|] == p[0];
    assert forall i :: 0 <= i < |p| ==> p[i] == s[j..j + |p|][i];
  }

  lemma FirstOccurrence(payload: seq<byte>, p: seq<byte>, tail: seq<byte>)
    requires Borderless(p)
    ensures Index(payload + p + tail, p) == if Index(payload, p) >= 0 then Index(payload, p) else |payload|
  {
    var s := payload + p + tail;
    var i := Index(s, p);
    IndexIsFirst(payload, p);
    IndexIsFirst(s, p);
    Associative(payload, p, tail);
    assert s[|payload|..|payload| + |p|] == p;
    assert MatchAt(s, p, |payload|);
    NoStraddle(payload, p, tail, i);
    if i < |payload| {
      MatchInFront(payload, p + tail, p, i);
    }
    if Index(payload, p) >= 0 {
      MatchInFront(payload, p + tail, p, Index(payload, p));
    }
  }

  lemma FirstSeparator(payload: seq<byte>, tail: seq<byte>)
    ensures BeforeFirst(payload + SEPARATOR + tail) == BeforeFirst(payload)
  {
    var s := payload + SEPARATOR + tail;
    SeparatorBorderless();
    FirstOccurrence(payload, SEPARATOR, tail);
    IndexIsFirst(payload, SEPARATOR);
    Associative(payload, SEPARATOR, tail);
    TakeOfAppend(payload, SEPARATOR + tail, Index(s, SEPARATOR));
  }

  lemma TakeOfAppend(a: seq<byte>, b: seq<byte>, n: nat)
    requires n <= |a|
    ensures (a + b)[..n] == a[..n]
    ensures a[..|a|] == a
  {
  }

  // For every payload and whatever follows the generated form, parsing returns
  // the payload up to its own first separator, with trailing NULs removed.
  lemma ParseGenerated(payload: seq<byte>, tail: seq<byte>)
    ensures Parse(Generate(payload) + tail) == TrimNul(BeforeFirst(payload))
  {
    var formatted := Generate(payload) + tail;
    assert formatted[..3] == TXT;
    assert formatted[3..] == payload + SEPARATOR + tail;
    FirstSeparator(payload, tail);
  }

  // The octets of a text of ASCII characters.
  function Spelled(s: string): (b: seq<byte>)
    requires forall i :: 0 <= i < |s| ==> s[i] as int < 0x80
    ensures |b| == |s|
  {
    seq(|s|, i requires 0 <= i < |s| => s[i] as int)
  }

  lemma SeparatorSpelled()
    ensures SEPARATOR == Spelled("{4CFF57F7-BEDD-43d5-AE8F-27A61E886F2F}")
  {
  }

  // What is sent, spelled out.
  lemma GeneratedSpelled(payload: seq<byte>)
    ensures Generate(payload) == Spelled("TXT") + payload + Spelled("{4CFF57F7-BEDD-43d5-AE8F-27A61E886F2F}")
  {
    FormatsSpelled(TXT);
    SeparatorSpelled();
  }

  predicate IsFormat(f: seq<byte>) {
    f == Spelled("TXT") || f == Spelled("UNI") || f == Spelled("RTF") || f == Spelled("HTM")
  }

  lemma FormatsSpelled(f: seq<byte>)
    ensures IsFormat(f) <==> f in {TXT, UNI, RTF, HTM}
    ensures Spelled("TXT") == TXT
  {
    assert Spelled("TXT") == TXT && Spelled("UNI") == UNI && Spelled("RTF") == RTF && Spelled("HTM") == HTM;
  }

  lemma ParseRest(s: seq<byte>, rest: seq<byte>)
    requires if HasFormatPrefix(s) then s[3..] == rest else s == rest
    ensures Parse(s) == TrimNul(BeforeFirst(rest))
  {
  }

  lemma FormatPrefix(format: seq<byte>, later: seq<byte>)
    requires IsFormat(format)
    ensures HasFormatPrefix(format + later) && (format + later)[3..] == later
  {
    FormatsSpelled(format);
    assert |format| == 3 && (format + later)[..3] == format;
  }

  lemma NoFormatPrefix(payload: seq<byte>, tail: seq<byte>)
    requires |payload| < 3 || !IsFormat(payload[..3])
    ensures !HasFormatPrefix(payload + SEPARATOR + tail)
  {
    var s := payload + SEPARATOR + tail;
    if |payload| < 3 {
      assert s[..3][|payload|] == s[|payload|] == SEPARATOR[0] == 0x7B;
    } else {
      FormatsSpelled(payload[..3]);
      assert s[..3] == payload[..3];
    }
  }

  lemma Regroup(a: seq<byte>, b: seq<byte>, c: seq<byte>, d: seq<byte>)
    ensures a + b + c + d == a + (b + c + d)
  {
  }

  // Any of the four formats is stripped, and nothing else is.
  lemma ParseAnyFormat(format: seq<byte>, payload: seq<byte>, tail: seq<byte>)
    requires IsFormat(format) || (format == [] && (|payload| < 3 || !IsFormat(payload[..3])))
    ensures Parse(format + payload + SEPARATOR + tail) == TrimNul(BeforeFirst(payload))
  {
    var rest := payload + SEPARATOR + tail;
    Regroup(format, payload, SEPARATOR, tail);
    FirstSeparator(payload, tail);
    if format == [] {
      NoFormatPrefix(payload, tail);
      assert format + rest == rest;
    } else {
      FormatPrefix(format, rest);
    }
    ParseRest(format + rest, rest);
  }

  // The payload survives exactly when it holds no separator and does not end in NUL.
  lemma ParseInvertsGenerateIff(payload: seq<byte>, tail: seq<byte>)
    ensures Parse(Generate(payload) + tail) == payload
      <==> !Contains(payload, SEPARATOR) && (payload == [] || payload[|payload| - 1] != 0)
  {
    ParseGenerated(payload, tail);
    IndexIsFirst(payload, SEPARATOR);
  }
}
