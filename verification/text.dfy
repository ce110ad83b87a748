/**
 Python string primitives the tester relies on, stated over `string`
 (a sequence of `char`): `str.split(sep)` with an explicit one-character
 separator, `sep.join(xs)`, `str.find`/`str.rfind` for one character,
 slicing with Python's clamping rules, and `int(text)` for base-10 text.
 */
module Text {

  datatype Option<+T> = None | Some(value: T)

  datatype Result<+T, +E> = Success(value: T) | Failure(error: E)

  // ---------------------------------------------------------------------
  // split / join
  // ---------------------------------------------------------------------

  /** `sep.join(parts)`; the join of no parts is the empty string. */
  function Join(parts: seq<string>, sep: char): string
    decreases |parts|
  {
    if |parts| == 0 then ""
    else if |parts| == 1 then parts[0]
    else parts[0] + [sep] + Join(parts[1..], sep)
  }

  /** The first two pieces of a join, and the join of the rest after them. */
  lemma JoinFirstTwo(parts: seq<string>, sep: char)
    requires |parts| >= 2
    ensures Join(parts, sep) ==
      parts[0] + [sep] + parts[1] + (if |parts| == 2 then [] else [sep] + Join(parts[2..], sep))
  {
    assert parts[1..][1..] == parts[2..];
  }

  /** `s.split(sep)` for an explicit separator: every occurrence splits, so
      empty pieces are kept and the empty string splits into one empty piece. */
  function Split(s: string, sep: char): (parts: seq<string>)
    ensures |parts| >= 1
    ensures forall i :: 0 <= i < |parts| ==> sep !in parts[i]
    ensures Join(parts, sep) == s
    decreases |s|
  {
    if |s| == 0 then [""]
    else
      var tail := Split(s[1..], sep);
      if s[0] == sep then
        [""] + tail
      else
        [[s[0]] + tail[0]] + tail[1..]
  }

  /** Splitting a joined list gives the list back when no piece holds the separator. */
  lemma {:induction false} SplitJoin(parts: seq<string>, sep: char)
    requires |parts| >= 1
    requires forall i :: 0 <= i < |parts| ==> sep !in parts[i]
    ensures Split(Join(parts, sep), sep) == parts
    decreases |parts|
  {
    if |parts| == 1 {
      SplitNoSep(parts[0], sep);
    } else {
      SplitJoin(parts[1..], sep);
      SplitAtFirst(parts[0], Join(parts[1..], sep), sep);
      assert [parts[0]] + parts[1..] == parts;
    }
  }

  /** A string without the separator splits into itself. */
  lemma {:induction false} SplitNoSep(s: string, sep: char)
    requires sep !in s
    ensures Split(s, sep) == [s]
    decreases |s|
  {
    if |s| > 0 {
      SplitNoSep(s[1..], sep);
      assert [s[0]] + s[1..] == s;
    }
  }

  /** The first occurrence of the separator ends the first piece. */
  lemma {:induction false} SplitAtFirst(a: string, rest: string, sep: char)
    requires sep !in a
    ensures Split(a + [sep] + rest, sep) == [a] + Split(rest, sep)
    decreases |a|
  {
    if |a| == 0 {
      assert a + [sep] + rest == [sep] + rest;
      assert ([sep] + rest)[1..] == rest;
    } else {
      SplitAtFirst(a[1..], rest, sep);
      assert (a + [sep] + rest)[1..] == a[1..] + [sep] + rest;
      assert [a[0]] + a[1..] == a;
    }
  }

  // ---------------------------------------------------------------------
  // find / rfind / slicing
  // ---------------------------------------------------------------------

  /** Python's normalisation of a slice bound or a `find` start. */
  function ClampIndex(i: int, n: nat): (k: nat)
    ensures k <= n
    ensures 0 <= i <= n ==> k == i
    ensures i > n ==> k == n
    ensures i < 0 && i + n >= 0 ==> k == i + n
    ensures i + n < 0 ==> k == 0
  {
    if i < 0 then (if i + n < 0 then 0 else i + n)
    else if i > n then n
    else i
  }

  /** `s[i:j]` with Python's negative-index and clamping rules. */
  function Slice(s: string, i: int, j: int): (r: string)
    ensures |r| <= |s|
    ensures 0 <= i <= j <= |s| ==> r == s[i..j]
    ensures ClampIndex(j, |s|) <= ClampIndex(i, |s|) ==> r == ""
  {
    var a := ClampIndex(i, |s|);
    var b := ClampIndex(j, |s|);
    if a < b then s[a..b] else ""
  }

  /** First index `k >= from` with `s[k] == c`, or -1 (a scan helper). */
  function FindFrom(s: string, c: char, from: nat): (k: int)
    requires from <= |s|
    ensures k == -1 || from <= k < |s|
    ensures k == -1 ==> forall m :: from <= m < |s| ==> s[m] != c
    ensures k != -1 ==> s[k] == c && forall m :: from <= m < k ==> s[m] != c
    decreases |s| - from
  {
    if from == |s| then -1
    else if s[from] == c then from
    else FindFrom(s, c, from + 1)
  }

  /** `s.find(c, start)`: a start past the end finds nothing; a negative start
      counts from the end. */
  function Find(s: string, c: char, start: int): (k: int)
    ensures k == -1 || 0 <= k < |s|
    ensures k != -1 ==> s[k] == c && ClampIndex(start, |s|) <= k
    ensures start <= |s| ==>
      (k == -1 <==> forall m :: ClampIndex(start, |s|) <= m < |s| ==> s[m] != c)
    ensures k != -1 ==> forall m :: ClampIndex(start, |s|) <= m < k ==> s[m] != c
  {
    if start > |s| then -1 else FindFrom(s, c, ClampIndex(start, |s|))
  }

  /** `s.rfind(c)`: the last index holding `c`, or -1. */
  function RFind(s: string, c: char): (k: int)
    ensures k == -1 || 0 <= k < |s|
    ensures k == -1 <==> c !in s
    ensures k != -1 ==> s[k] == c && forall m :: k < m < |s| ==> s[m] != c
    decreases |s|
  {
    if |s| == 0 then -1
    else if s[|s| - 1] == c then |s| - 1
    else RFind(s[..|s| - 1], c)
  }

  // ---------------------------------------------------------------------
  // int(text)
  // ---------------------------------------------------------------------

  /** The whitespace `int()` skips around a number: the ASCII tab to
      carriage return and the space, and every non-ASCII character that
      `str.isspace` accepts. The ASCII separators 0x1C-0x1F are `isspace`
      too, but `int()` reads ASCII text as it is and rejects them. */
  predicate IsSpace(c: char) {
    ('\t' <= c <= '\r') || c == ' ' || c == '\U{85}' || c == '\U{A0}' || c == '\U{1680}'
    || ('\U{2000}' <= c <= '\U{200A}') || c == '\U{2028}' || c == '\U{2029}' || c == '\U{202F}'
    || c == '\U{205F}' || c == '\U{3000}'
  }

  predicate IsDigit(c: char) {
    '0' <= c <= '9'
  }

  predicate IsSign(c: char) {
    c == '+' || c == '-'
  }

  predicate AllDigits(s: string) {
    forall i :: 0 <= i < |s| ==> IsDigit(s[i])
  }

  predicate AllSpace(w: string) {
    forall i :: 0 <= i < |w| ==> IsSpace(w[i])
  }

  function DigitValue(c: char): (d: nat)
    requires IsDigit(c)
    ensures d < 10
  {
    (c as int) - ('0' as int)
  }

  function DigitChar(d: nat): (c: char)
    requires d < 10
    ensures IsDigit(c) && DigitValue(c) == d
  {
    (('0' as int) + d) as char
  }

  /** The value of a run of decimal digits, most significant first. */
  function DigitsValue(s: string): nat
    requires AllDigits(s)
    decreases |s|
  {
    if |s| == 0 then 0
    else 10 * DigitsValue(s[..|s| - 1]) + DigitValue(s[|s| - 1])
  }

  /** How far `int()` has got through its text. */
  datatype ReadState =
    | Leading                                 // whitespace before the number
    | AfterSign(negative: bool)               // a sign and no digit yet
    | InDigits(negative: bool, magnitude: nat) // one digit or more
    | Trailing(value: int)                    // whitespace after the number

  function SignedValue(negative: bool, magnitude: nat): int {
    if negative then -(magnitude as int) else magnitude
  }

  /** `int(text)` in base 10: optional whitespace, an optional sign, decimal
      digits in groups joined by single underscores (the literal form of
      PEP 515), optional whitespace. Anything else is a `ValueError`, here
      `None`. */
  function ParseInt(text: string): Option<int> {
    ReadFrom(text, Leading)
  }

  /** The rest of `int()`'s reading, one character at a time. An underscore
      is accepted only between two digits. */
  function ReadFrom(s: string, st: ReadState): Option<int>
    decreases |s|
  {
    if |s| == 0 then
      match st
      case InDigits(neg, m) => Some(SignedValue(neg, m))
      case Trailing(v) => Some(v)
      case _ => None
    else
      var c := s[0];
      match st
      case Leading =>
        if IsSpace(c) then ReadFrom(s[1..], Leading)
        else if IsSign(c) then ReadFrom(s[1..], AfterSign(c == '-'))
        else if IsDigit(c) then ReadFrom(s[1..], InDigits(false, DigitValue(c)))
        else None
      case AfterSign(neg) =>
        if IsDigit(c) then ReadFrom(s[1..], InDigits(neg, DigitValue(c))) else None
      case InDigits(neg, m) =>
        if IsDigit(c) then ReadFrom(s[1..], InDigits(neg, 10 * m + DigitValue(c)))
        else if c == '_' && |s| >= 2 && IsDigit(s[1]) then ReadFrom(s[2..], InDigits(neg, 10 * m + DigitValue(s[1])))
        else if IsSpace(c) then ReadFrom(s[1..], Trailing(SignedValue(neg, m)))
        else None
      case Trailing(v) =>
        if IsSpace(c) then ReadFrom(s[1..], Trailing(v)) else None
  }

  /** A magnitude with more digits appended, as `int()` folds them in. */
  function Accumulate(m: nat, d: string): nat
    requires AllDigits(d)
    decreases |d|
  {
    if |d| == 0 then m else Accumulate(10 * m + DigitValue(d[0]), d[1..])
  }

  /** Folding digits left to right gives the value of the whole run. */
  lemma {:induction false} AccumulateValue(p: string, d: string)
    requires AllDigits(p) && AllDigits(d)
    ensures Accumulate(DigitsValue(p), d) == DigitsValue(p + d)
    decreases |d|
  {
    if |d| == 0 {
      assert p + d == p;
    } else {
      var q := p + [d[0]];
      assert q[..|q| - 1] == p && q[|q| - 1] == d[0];
      assert AllDigits(q);
      assert DigitsValue(q) == 10 * DigitsValue(p) + DigitValue(d[0]);
      assert q + d[1..] == p + d;
      AccumulateValue(q, d[1..]);
    }
  }

  /** A run of digits extends the magnitude being read. */
  lemma {:induction false} ReadDigits(d: string, rest: string, neg: bool, m: nat)
    requires AllDigits(d)
    ensures ReadFrom(d + rest, InDigits(neg, m)) == ReadFrom(rest, InDigits(neg, Accumulate(m, d)))
    decreases |d|
  {
    var s := d + rest;
    if |d| == 0 {
      assert s == rest;
    } else {
      assert s[0] == d[0] && s[1..] == d[1..] + rest;
      ReadDigits(d[1..], rest, neg, 10 * m + DigitValue(d[0]));
    }
  }

  /** `int()` of plain digits after an optional sign. */
  lemma SignedDigits(sign: string, d: string)
    requires sign == "" || sign == "+" || sign == "-"
    requires |d| > 0 && AllDigits(d)
    ensures ParseInt(sign + d) == Some(SignedValue(sign == "-", DigitsValue(d)))
  {
    if sign == "" {
      assert sign + d == d;
      UnsignedRun(d);
    } else {
      var s := sign + d;
      assert s[0] == sign[0] && s[1..] == d;
      SignedRun(d, sign == "-");
    }
  }

  lemma UnsignedRun(d: string)
    requires |d| > 0 && AllDigits(d)
    ensures ReadFrom(d, Leading) == Some(DigitsValue(d))
  {
    assert ReadFrom(d, Leading) == ReadFrom(d[1..], InDigits(false, DigitValue(d[0])));
    DigitsFrom(d, false);
  }

  lemma SignedRun(d: string, neg: bool)
    requires |d| > 0 && AllDigits(d)
    ensures ReadFrom(d, AfterSign(neg)) == Some(SignedValue(neg, DigitsValue(d)))
  {
    assert ReadFrom(d, AfterSign(neg)) == ReadFrom(d[1..], InDigits(neg, DigitValue(d[0])));
    DigitsFrom(d, neg);
  }

  /** After the first digit of a run, the rest of the run completes its value. */
  lemma DigitsFrom(d: string, neg: bool)
    requires |d| > 0 && AllDigits(d)
    ensures ReadFrom(d[1..], InDigits(neg, DigitValue(d[0]))) == Some(SignedValue(neg, DigitsValue(d)))
  {
    ReadDigits(d[1..], [], neg, DigitValue(d[0]));
    assert d[1..] + [] == d[1..];
    assert DigitsValue([d[0]]) == DigitValue(d[0]) by {
      assert [d[0]][..0] == [];
    }
    AccumulateValue([d[0]], d[1..]);
    assert [d[0]] + d[1..] == d;
  }

  /** Whitespace alone ends the reading as the end of the text would. */
  lemma {:induction false} ReadSpaces(w: string, st: ReadState)
    requires AllSpace(w)
    ensures ReadFrom(w, st) == ReadFrom([], st)
    decreases |w|
  {
    if |w| > 0 {
      match st
      case Leading => ReadSpaces(w[1..], Leading);
      case AfterSign(_) =>
      case InDigits(neg, m) => ReadSpaces(w[1..], Trailing(SignedValue(neg, m)));
      case Trailing(v) => ReadSpaces(w[1..], Trailing(v));
    }
  }

  lemma {:induction false} ReadLeading(w: string, t: string)
    requires AllSpace(w)
    ensures ReadFrom(w + t, Leading) == ReadFrom(t, Leading)
    decreases |w|
  {
    if |w| > 0 {
      assert (w + t)[0] == w[0] && (w + t)[1..] == w[1..] + t;
      ReadLeading(w[1..], t);
    } else {
      assert w + t == t;
    }
  }

  lemma {:induction false} ReadTrailing(t: string, w: string, st: ReadState)
    requires AllSpace(w)
    ensures ReadFrom(t + w, st) == ReadFrom(t, st)
    decreases |t|
  {
    var s := t + w;
    if |t| == 0 {
      assert s == w;
      ReadSpaces(w, st);
    } else {
      assert s[0] == t[0] && s[1..] == t[1..] + w;
      if |t| >= 2 {
        assert s[1] == t[1] && s[2..] == t[2..] + w;
      } else if |w| > 0 {
        assert s[1] == w[0];
      }
      var c := t[0];
      match st
      case Leading =>
        if IsSpace(c) { ReadTrailing(t[1..], w, Leading); }
        else if IsSign(c) { ReadTrailing(t[1..], w, AfterSign(c == '-')); }
        else if IsDigit(c) { ReadTrailing(t[1..], w, InDigits(false, DigitValue(c))); }
      case AfterSign(neg) =>
        if IsDigit(c) { ReadTrailing(t[1..], w, InDigits(neg, DigitValue(c))); }
      case InDigits(neg, m) =>
        if IsDigit(c) { ReadTrailing(t[1..], w, InDigits(neg, 10 * m + DigitValue(c))); }
        else if c == '_' && |t| >= 2 && IsDigit(t[1]) { ReadTrailing(t[2..], w, InDigits(neg, 10 * m + DigitValue(t[1]))); }
        else if IsSpace(c) { ReadTrailing(t[1..], w, Trailing(SignedValue(neg, m))); }
      case Trailing(v) =>
        if IsSpace(c) { ReadTrailing(t[1..], w, Trailing(v)); }
    }
  }

  /** `int()` ignores whitespace around the number, Unicode spaces included. */
  lemma ParseIntPadded(w1: string, t: string, w2: string)
    requires AllSpace(w1) && AllSpace(w2)
    ensures ParseInt(w1 + t + w2) == ParseInt(t)
  {
    assert w1 + t + w2 == w1 + (t + w2);
    ReadLeading(w1, t + w2);
    ReadTrailing(t, w2, Leading);
  }

  /** Blank text is not a number. */
  lemma ParseIntBlank(w: string)
    requires AllSpace(w)
    ensures ParseInt(w) == None
  {
    ReadSpaces(w, Leading);
  }

  /** An underscore between two runs of digits does not change the value. */
  lemma ParseIntUnderscore(a: string, b: string)
    requires |a| > 0 && |b| > 0 && AllDigits(a) && AllDigits(b)
    ensures ParseInt(a + "_" + b) == ParseInt(a + b)
  {
    var u := "_" + b;
    var s1, s2 := a + u, a + b;
    assert a + "_" + b == s1;
    var m := DigitValue(a[0]);
    assert s1[0] == a[0] && s1[1..] == a[1..] + u;
    assert s2[0] == a[0] && s2[1..] == a[1..] + b;
    ReadDigits(a[1..], u, false, m);
    ReadDigits(a[1..], b, false, m);
    assert u[0] == '_' && u[1] == b[0] && u[2..] == b[1..];
  }

  /** A character that is no digit, sign, underscore or whitespace ends the
      reading in a `ValueError`, wherever it stands. */
  lemma {:induction false} ReadStray(s: string, st: ReadState, i: nat)
    requires i < |s| && !IsDigit(s[i]) && !IsSign(s[i]) && s[i] != '_' && !IsSpace(s[i])
    ensures ReadFrom(s, st) == None
    decreases |s|
  {
    if i > 0 {
      var c := s[0];
      assert s[1..][i - 1] == s[i];
      match st
      case Leading =>
        if IsSpace(c) { ReadStray(s[1..], Leading, i - 1); }
        else if IsSign(c) { ReadStray(s[1..], AfterSign(c == '-'), i - 1); }
        else if IsDigit(c) { ReadStray(s[1..], InDigits(false, DigitValue(c)), i - 1); }
      case AfterSign(neg) =>
        if IsDigit(c) { ReadStray(s[1..], InDigits(neg, DigitValue(c)), i - 1); }
      case InDigits(neg, m) =>
        if IsDigit(c) { ReadStray(s[1..], InDigits(neg, 10 * m + DigitValue(c)), i - 1); }
        else if c == '_' && |s| >= 2 && IsDigit(s[1]) {
          assert s[2..][i - 2] == s[i];
          ReadStray(s[2..], InDigits(neg, 10 * m + DigitValue(s[1])), i - 2);
        }
        else if IsSpace(c) { ReadStray(s[1..], Trailing(SignedValue(neg, m)), i - 1); }
      case Trailing(v) =>
        if IsSpace(c) { ReadStray(s[1..], Trailing(v), i - 1); }
    }
  }

  /** Text holding a character `int()` does not know raises. */
  lemma ParseIntStray(text: string, i: nat)
    requires i < |text| && !IsDigit(text[i]) && !IsSign(text[i]) && text[i] != '_' && !IsSpace(text[i])
    ensures ParseInt(text) == None
  {
    ReadStray(text, Leading, i);
  }

  /** Decimal digits of a natural number, without leading zeros. */
  function NatDigits(n: nat): (s: string)
    ensures |s| >= 1 && AllDigits(s)
    ensures DigitsValue(s) == n
    decreases n
  {
    if n < 10 then [DigitChar(n)]
    else
      var s := NatDigits(n / 10) + [DigitChar(n % 10)];
      assert s[..|s| - 1] == NatDigits(n / 10);
      s
  }

  /** `str(n)` for an integer. */
  function IntToString(n: int): string {
    if n < 0 then "-" + NatDigits(-n) else NatDigits(n)
  }

  /** `int(str(n)) == n`. */
  lemma ParseIntToString(n: int)
    ensures ParseInt(IntToString(n)) == Some(n)
  {
    if n < 0 {
      SignedDigits("-", NatDigits(-n));
    } else {
      SignedDigits("", NatDigits(n));
      assert "" + NatDigits(n) == NatDigits(n);
    }
  }

  /** `int(sign + str(n))` for a natural `n` and an explicit sign. */
  lemma ParseSigned(sign: char, n: nat)
    requires IsSign(sign)
    ensures ParseInt([sign] + NatDigits(n)) == Some(if sign == '-' then -(n as int) else n)
  {
    SignedDigits([sign], NatDigits(n));
  }
}
