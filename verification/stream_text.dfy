/** The parts of C++ stream extraction and insertion the image codec relies
    on, as functions over the bytes still to be read: each reader returns
    what it extracted together with the rest of the input. A failed
    extraction, which sets the stream's fail bit, is `None`. */
module StreamText {
  import opened NetPbm

  datatype Option<T> = None | Some(value: T)

  /** White space of the C locale: space, tab, newline, vertical tab, form
      feed and carriage return. */
  predicate IsSpace(c: Byte) {
    c == ' ' || c == '\t' || c == '\n' || c as int == 11 || c as int == 12 || c == '\r'
  }

  predicate IsDigit(c: Byte) {
    '0' <= c <= '9'
  }

  predicate AllSpace(s: seq<Byte>) {
    forall k :: 0 <= k < |s| ==> IsSpace(s[k])
  }

  predicate AllDigits(s: seq<Byte>) {
    forall k :: 0 <= k < |s| ==> IsDigit(s[k])
  }

  /** The white space skipped before a formatted extraction: what is left
      starts at the first byte that is not white space. */
  function SkipSpace(s: seq<Byte>): (r: seq<Byte>)
    ensures |r| <= |s|
    ensures |r| == 0 || !IsSpace(r[0])
  {
    if |s| > 0 && IsSpace(s[0]) then SkipSpace(s[1..]) else s
  }

  /** What SkipSpace drops is a run of white space and what it keeps is
      the rest of the input. */
  lemma {:induction false} SkipSpaceSuffix(s: seq<Byte>)
    ensures SkipSpace(s) == s[|s| - |SkipSpace(s)|..]
    ensures AllSpace(s[..|s| - |SkipSpace(s)|])
  {
    if |s| > 0 && IsSpace(s[0]) {
      var r := SkipSpace(s[1..]);
      SkipSpaceSuffix(s[1..]);
      assert s[1..][|s| - 1 - |r|..] == s[|s| - |r|..];
      assert s[..|s| - |r|] == [s[0]] + s[1..][..|s| - 1 - |r|];
    }
  }

  /** Leading white space is skipped whatever it is made of. */
  lemma {:induction false} SkipSpaceAfterSpace(sp: seq<Byte>, t: seq<Byte>)
    requires AllSpace(sp)
    ensures SkipSpace(sp + t) == SkipSpace(t)
  {
    if |sp| > 0 {
      assert (sp + t)[0] == sp[0] && IsSpace(sp[0]);
      assert (sp + t)[1..] == sp[1..] + t;
      SkipSpaceAfterSpace(sp[1..], t);
    } else {
      assert sp + t == t;
    }
  }

  /** Split `s` before its first white-space byte. */
  function SplitAtSpace(s: seq<Byte>): (r: (seq<Byte>, seq<Byte>))
    ensures r.0 + r.1 == s
    ensures forall k :: 0 <= k < |r.0| ==> !IsSpace(r.0[k])
    ensures |r.1| == 0 || IsSpace(r.1[0])
  {
    if |s| == 0 || IsSpace(s[0]) then ([], s)
    else
      var (w, rest) := SplitAtSpace(s[1..]);
      assert ([s[0]] + w) + rest == [s[0]] + (w + rest);
      assert forall k :: 1 <= k <= |w| ==> ([s[0]] + w)[k] == w[k - 1];
      ([s[0]] + w, rest)
  }

  /** `>>` into a string: skip white space, then take the longest run of
      bytes that are not white space. The token is empty only at the end of
      the input, where the extraction fails and leaves the string as it was
      (empty in the reader that uses it). */
  function ReadToken(s: seq<Byte>): (r: (seq<Byte>, seq<Byte>))
    ensures r.0 + r.1 == SkipSpace(s)
    ensures forall k :: 0 <= k < |r.0| ==> !IsSpace(r.0[k])
    ensures |r.1| == 0 || IsSpace(r.1[0])
  {
    SplitAtSpace(SkipSpace(s))
  }

  /** A token written after some white space and before a white-space byte
      is read back as it was written. */
  lemma ReadTokenOfText(sp: seq<Byte>, w: seq<Byte>, rest: seq<Byte>)
    requires AllSpace(sp) && |w| > 0 && forall k :: 0 <= k < |w| ==> !IsSpace(w[k])
    requires |rest| > 0 && IsSpace(rest[0])
    ensures ReadToken(sp + w + rest) == (w, rest)
  {
    assert sp + w + rest == sp + (w + rest);
    SkipSpaceAfterSpace(sp, w + rest);
    SplitUnique(w + rest, w, rest);
  }

  lemma {:induction false} SplitUnique(s: seq<Byte>, w: seq<Byte>, rest: seq<Byte>)
    requires s == w + rest
    requires forall k :: 0 <= k < |w| ==> !IsSpace(w[k])
    requires |rest| == 0 || IsSpace(rest[0])
    ensures SplitAtSpace(s) == (w, rest)
  {
    if |w| > 0 {
      assert s[0] == w[0] && !IsSpace(w[0]);
      assert s[1..] == w[1..] + rest;
      SplitUnique(s[1..], w[1..], rest);
      assert [s[0]] + w[1..] == w;
    } else {
      assert s == rest;
    }
  }

  /** `ignore()`: drop one byte, if there is one. */
  function Ignore(s: seq<Byte>): (r: seq<Byte>)
    ensures |s| > 0 ==> r == s[1..]
    ensures |s| == 0 ==> r == []
  {
    if |s| > 0 then s[1..] else s
  }

  /** `getline`: the bytes before the first newline, and the input after
      that newline; at the end of the input without a newline, everything
      that is left. */
  function GetLine(s: seq<Byte>): (r: (seq<Byte>, seq<Byte>))
    ensures '\n' !in r.0
    ensures s == r.0 + ['\n'] + r.1 || (s == r.0 && r.1 == [])
    ensures |s| > 0 && s[0] != '\n' ==> |r.0| > 0 && r.0[0] == s[0]
  {
    if |s| == 0 then ([], [])
    else if s[0] == '\n' then ([], s[1..])
    else
      var (line, rest) := GetLine(s[1..]);
      ([s[0]] + line, rest)
  }

  /** A line without newline followed by a newline is read back whole. */
  lemma {:induction false} GetLineOfText(line: seq<Byte>, rest: seq<Byte>)
    requires '\n' !in line
    ensures GetLine(line + ['\n'] + rest) == (line, rest)
  {
    var s := line + ['\n'] + rest;
    if |line| > 0 {
      assert s[0] == line[0] && s[0] != '\n';
      assert s[1..] == line[1..] + ['\n'] + rest;
      GetLineOfText(line[1..], rest);
      assert [s[0]] + line[1..] == line;
    } else {
      assert s == ['\n'] + rest;
    }
  }

  // ------------------------------------------------------------ integers

  /** The range of a 32-bit int. */
  predicate IsInt32(v: int) {
    -0x8000_0000 <= v < 0x8000_0000
  }

  function DigitValue(c: Byte): (d: int)
    requires IsDigit(c)
    ensures 0 <= d < 10
  {
    c as int - '0' as int
  }

  function DigitChar(d: int): (c: Byte)
    requires 0 <= d < 10
    ensures IsDigit(c) && DigitValue(c) == d
  {
    (d + '0' as int) as char
  }

  /** Length of the leading run of decimal digits of `s`. */
  function DigitRun(s: seq<Byte>): (n: nat)
    ensures n <= |s|
    ensures AllDigits(s[..n])
    ensures n == |s| || !IsDigit(s[n])
  {
    if |s| == 0 || !IsDigit(s[0]) then 0
    else
      var n := DigitRun(s[1..]);
      assert s[..n + 1] == [s[0]] + s[1..][..n];
      n + 1
  }

  /** The number a run of decimal digits denotes, most significant first. */
  function DigitsValue(d: seq<Byte>): nat
    requires AllDigits(d)
  {
    if |d| == 0 then 0 else DigitsValue(d[..|d| - 1]) * 10 + DigitValue(d[|d| - 1])
  }

  /** An int extraction at a byte that is not white space: an optional
      sign and a non-empty run of decimal digits. A missing digit or a value
      outside the 32-bit range makes the extraction fail. */
  function ReadSigned(t: seq<Byte>): (r: Option<(int, seq<Byte>)>)
    ensures r.Some? ==> IsInt32(r.value.0) && |r.value.1| < |t|
    ensures r.Some? ==> |r.value.1| == 0 || !IsDigit(r.value.1[0])
  {
    var signed := |t| > 0 && (t[0] == '-' || t[0] == '+');
    var u := if signed then t[1..] else t;
    var n := DigitRun(u);
    var magnitude: int := DigitsValue(u[..n]);
    var v := if signed && t[0] == '-' then -magnitude else magnitude;
    if n == 0 || !IsInt32(v) then None else Some((v, u[n..]))
  }

  /** `>>` into an int: skip white space, then extract a signed decimal. */
  function ReadInt(s: seq<Byte>): (r: Option<(int, seq<Byte>)>)
    ensures r.Some? ==> IsInt32(r.value.0) && |r.value.1| < |s|
    ensures r.Some? ==> |r.value.1| == 0 || !IsDigit(r.value.1[0])
  {
    ReadSigned(SkipSpace(s))
  }

  /** Leading white space does not change what an int extraction reads. */
  lemma ReadIntAfterSpace(sp: seq<Byte>, t: seq<Byte>)
    requires AllSpace(sp)
    ensures ReadInt(sp + t) == ReadInt(t)
  {
    SkipSpaceAfterSpace(sp, t);
  }

  // ------------------------------------------------------ decimal output

  /** Decimal digits of a natural number, as `<<` writes them. */
  function NatText(n: nat): (r: seq<Byte>)
    ensures |r| > 0 && AllDigits(r)
  {
    if n < 10 then [DigitChar(n)] else NatText(n / 10) + [DigitChar(n % 10)]
  }

  /** An int as `<<` writes it: a minus sign for negative values, then the
      digits of the magnitude. */
  function IntText(v: int): (r: seq<Byte>)
    ensures |r| > 0 && !IsSpace(r[0])
  {
    if v < 0 then ['-'] + NatText(-v) else NatText(v)
  }

  /** A written int starts with a minus sign or a digit. */
  lemma IntTextStart(v: int)
    ensures IntText(v)[0] == '-' || IsDigit(IntText(v)[0])
  {
  }

  /** The digits written for n denote n. */
  lemma {:induction false} NatTextValue(n: nat)
    ensures DigitsValue(NatText(n)) == n
  {
    if n >= 10 {
      var d := NatText(n);
      assert d[..|d| - 1] == NatText(n / 10);
      NatTextValue(n / 10);
    }
  }

  /** Reading back a written int: the text of v, followed by anything but
      a digit, extracts v and stops right after the text. */
  lemma ReadIntOfText(v: int, rest: seq<Byte>)
    requires IsInt32(v)
    requires |rest| == 0 || !IsDigit(rest[0])
    ensures ReadInt(IntText(v) + rest) == Some((v, rest))
  {
    var s := IntText(v) + rest;
    assert s[0] == IntText(v)[0];
    assert SkipSpace(s) == s;
    ReadSignedOfText(v, rest);
  }

  lemma ReadSignedOfText(v: int, rest: seq<Byte>)
    requires IsInt32(v)
    requires |rest| == 0 || !IsDigit(rest[0])
    ensures ReadSigned(IntText(v) + rest) == Some((v, rest))
  {
    var m: nat := if v < 0 then -v else v;
    var digits := NatText(m);
    NatTextValue(m);
    var u := digits + rest;
    DigitsThenRest(digits, rest, u);
    if v < 0 {
      var t := IntText(v) + rest;
      assert t == ['-'] + u;
      ReadSignedNegative(t, u, |digits|, m);
    } else {
      assert IntText(v) + rest == u;
      ReadSignedUnsigned(u, |digits|, m);
    }
  }

  /** Digits followed by a non-digit split at the end of the digits. */
  lemma DigitsThenRest(digits: seq<Byte>, rest: seq<Byte>, u: seq<Byte>)
    requires |digits| > 0 && AllDigits(digits)
    requires |rest| == 0 || !IsDigit(rest[0])
    requires u == digits + rest
    ensures DigitRun(u) == |digits| && u[..|digits|] == digits && u[|digits|..] == rest
    ensures IsDigit(u[0])
  {
    DigitRunOf(digits, rest);
  }

  /** Extraction at a minus sign followed by n digits denoting m. */
  lemma ReadSignedNegative(t: seq<Byte>, u: seq<Byte>, n: nat, m: nat)
    requires t == ['-'] + u && 0 < n <= |u| && DigitRun(u) == n
    requires AllDigits(u[..n]) && DigitsValue(u[..n]) == m && IsInt32(-(m as int))
    ensures ReadSigned(t) == Some((-(m as int), u[n..]))
  {
    assert t[1..] == u;
  }

  /** Extraction at n digits denoting m. */
  lemma ReadSignedUnsigned(u: seq<Byte>, n: nat, m: nat)
    requires 0 < n <= |u| && DigitRun(u) == n && IsDigit(u[0])
    requires AllDigits(u[..n]) && DigitsValue(u[..n]) == m && IsInt32(m)
    ensures ReadSigned(u) == Some((m, u[n..]))
  {
  }

  lemma {:induction false} DigitRunOf(d: seq<Byte>, rest: seq<Byte>)
    requires AllDigits(d)
    requires |rest| == 0 || !IsDigit(rest[0])
    ensures DigitRun(d + rest) == |d|
  {
    if |d| > 0 {
      assert (d + rest)[0] == d[0];
      assert (d + rest)[1..] == d[1..] + rest;
      DigitRunOf(d[1..], rest);
    } else {
      assert d + rest == rest;
    }
  }

  // ------------------------------------------------------ integer lists

  /** `n` consecutive int extractions. */
  function ReadInts(s: seq<Byte>, n: nat): (r: Option<(seq<int>, seq<Byte>)>)
    ensures r.Some? ==> |r.value.0| == n && |r.value.1| <= |s|
    decreases n
  {
    if n == 0 then Some(([], s))
    else
      match ReadInt(s)
      case None => None
      case Some((v, t)) =>
        match ReadInts(t, n - 1)
        case None => None
        case Some((vs, u)) => Some(([v] + vs, u))
  }

  /** One extraction followed by the remaining ones. */
  lemma ReadIntsCons(s: seq<Byte>, n: nat, v: int, t: seq<Byte>, vs: seq<int>, u: seq<Byte>)
    requires n > 0 && ReadInt(s) == Some((v, t)) && ReadInts(t, n - 1) == Some((vs, u))
    ensures ReadInts(s, n) == Some(([v] + vs, u))
  {
  }

  /** Values written one per line. */
  function Lines(vals: seq<int>): (r: seq<Byte>)
    ensures vals == [] ==> r == []
  {
    if |vals| == 0 then [] else IntText(vals[0]) + ['\n'] + Lines(vals[1..])
  }

  /** White space before a non-empty run of extractions is skipped. */
  lemma ReadIntsAfterSpace(sp: seq<Byte>, t: seq<Byte>, n: nat)
    requires AllSpace(sp) && n > 0
    ensures ReadInts(sp + t, n) == ReadInts(t, n)
  {
    ReadIntAfterSpace(sp, t);
  }

  /** Reading back values written one per line: all of them come back, and
      the input stops at the last newline. */
  lemma {:induction false} ReadIntsOfLines(vals: seq<int>, rest: seq<Byte>)
    requires forall k :: 0 <= k < |vals| ==> IsInt32(vals[k])
    ensures |vals| == 0 ==> ReadInts(Lines(vals) + rest, |vals|) == Some((vals, rest))
    ensures |vals| > 0 ==> ReadInts(Lines(vals) + rest, |vals|) == Some((vals, ['\n'] + rest))
  {
    if |vals| == 0 {
      assert Lines(vals) + rest == rest;
    } else {
      var v, vs := vals[0], vals[1..];
      assert [v] + vs == vals;
      assert forall k :: 0 <= k < |vs| ==> IsInt32(vs[k]) by {
        forall k | 0 <= k < |vs|
          ensures IsInt32(vs[k])
        {
          assert vs[k] == vals[k + 1];
        }
      }
      ReadIntsOfLines(vs, rest);
      ReadIntsOfLine(v, vs, rest);
    }
  }

  /** One more value in front of values that read back. */
  lemma ReadIntsOfLine(v: int, vs: seq<int>, rest: seq<Byte>)
    requires IsInt32(v)
    requires |vs| == 0 ==> ReadInts(Lines(vs) + rest, |vs|) == Some((vs, rest))
    requires |vs| > 0 ==> ReadInts(Lines(vs) + rest, |vs|) == Some((vs, ['\n'] + rest))
    ensures ReadInts(Lines([v] + vs) + rest, |vs| + 1) == Some(([v] + vs, ['\n'] + rest))
  {
    var after := Lines(vs) + rest;
    var tail := ['\n'] + after;
    var u := ['\n'] + rest;
    var s := Lines([v] + vs) + rest;
    assert ReadInt(s) == Some((v, tail)) by {
      LinesCons(v, vs, rest);
      ReadIntOfText(v, tail);
    }
    assert ReadInts(tail, |vs|) == Some((vs, u)) by {
      if |vs| == 0 {
        assert after == rest;
      } else {
        assert AllSpace(['\n']);
        ReadIntsAfterSpace(['\n'], after, |vs|);
      }
    }
    ReadIntsCons(s, |vs| + 1, v, tail, vs, u);
  }

  lemma LinesCons(v: int, vs: seq<int>, rest: seq<Byte>)
    ensures Lines([v] + vs) + rest == IntText(v) + (['\n'] + (Lines(vs) + rest))
  {
    assert ([v] + vs)[1..] == vs;
  }
}
