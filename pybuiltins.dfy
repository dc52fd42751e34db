/** The Python built-ins that the scraper's string and decision logic rests on:
    `str.split(sep)[0]`, `str.split(sep)[1]`, `str.replace`, `str.strip`, `int(text)`,
    `str(n)` for a natural number, and list indexing with negative indices.
    A Python exception becomes the `Err` arm of a `Result`. */
module PyBuiltins {

  datatype Option<+T> = None | Some(value: T)

  datatype Result<+T, +E> = Ok(value: T) | Err(error: E)

  /** What a call that returns nothing does: it returns, or it raises. */
  datatype Outcome<+E> = Pass | Fail(error: E)

  /** The Python exceptions the modelled code can raise. */
  datatype PyError =
    | IndexError      // a list, or the result of a split, indexed out of range
    | ValueError      // int() of a text that is not an integer literal
    | IntegrityError  // sqlite3: an INSERT whose primary key is already in the table

  // ---------------------------------------------------------------------------
  // Indexing

  /** `s[i]` as Python reads it: a negative `i` counts from the end; `None` is the IndexError. */
  function PyIndex<T>(s: seq<T>, i: int): (r: Option<T>)
    ensures r.Some? <==> -|s| <= i < |s|
    ensures 0 <= i < |s| ==> r == Some(s[i])
    ensures -|s| <= i < 0 ==> r == Some(s[|s| + i])
  {
    if 0 <= i < |s| then Some(s[i])
    else if -|s| <= i < 0 then Some(s[|s| + i])
    else None
  }

  // ---------------------------------------------------------------------------
  // Substring search

  predicate OccursAt(s: string, sep: string, i: int)
  {
    0 <= i && i + |sep| <= |s| && s[i..i + |sep|] == sep
  }

  ghost predicate Contains(s: string, sep: string)
  {
    exists i :: OccursAt(s, sep, i)
  }

  /** The first index at or after `from` where `sep` occurs in `s`. */
  function FindFrom(s: string, sep: string, from: nat): (r: Option<nat>)
    requires |sep| > 0
    ensures r.Some? ==> from <= r.value && OccursAt(s, sep, r.value)
    ensures r.Some? ==> forall j :: from <= j < r.value ==> !OccursAt(s, sep, j)
    ensures r.None? ==> forall j :: from <= j ==> !OccursAt(s, sep, j)
    decreases |s| - from
  {
    if from + |sep| > |s| then None
    else if s[from..from + |sep|] == sep then Some(from)
    else FindFrom(s, sep, from + 1)
  }

  /** The index of the first occurrence of `sep` in `s` (what `str.find` returns). */
  function Find(s: string, sep: string): (r: Option<nat>)
    requires |sep| > 0
    ensures r.Some? ==> OccursAt(s, sep, r.value)
    ensures r.Some? ==> forall j :: 0 <= j < r.value ==> !OccursAt(s, sep, j)
    ensures r.None? <==> !Contains(s, sep)
  {
    FindFrom(s, sep, 0)
  }

  // ---------------------------------------------------------------------------
  // split

  /** `s.split(sep)[0]`: the text before the first `sep`, or all of `s` when `sep`
      does not occur. The first two clauses with the third determine it. */
  function SplitHead(s: string, sep: string): (r: string)
    requires |sep| > 0
    ensures r <= s
    ensures forall j :: 0 <= j < |r| ==> !OccursAt(s, sep, j)
    ensures r == s || OccursAt(s, sep, |r|)
    ensures Contains(s, sep) <==> OccursAt(s, sep, |r|)
    ensures !Contains(r, sep)
  {
    match Find(s, sep)
    case None => s
    case Some(k) =>
      assert forall j :: OccursAt(s[..k], sep, j) ==> OccursAt(s, sep, j) by {
        forall j | OccursAt(s[..k], sep, j) ensures OccursAt(s, sep, j) {
          assert s[..k][j..j + |sep|] == s[j..j + |sep|];
        }
      }
      s[..k]
  }

  /** The clauses of `SplitHead`'s contract pin its result down. */
  lemma {:induction false} SplitHeadUnique(s: string, sep: string, p: string)
    requires |sep| > 0 && p <= s
    requires forall j :: 0 <= j < |p| ==> !OccursAt(s, sep, j)
    requires p == s || OccursAt(s, sep, |p|)
    ensures SplitHead(s, sep) == p
  {
    var r := SplitHead(s, sep);
    assert |r| == |p|;
  }

  /** A way to locate the first `sep` in a given text: nowhere before `k` do the first two
      characters of `sep` stand side by side, and `sep` occurs at `k` (or `k` is the end). */
  lemma SplitHeadAt(s: string, sep: string, k: int)
    requires 2 <= |sep| && 0 <= k <= |s|
    requires k == |s| || OccursAt(s, sep, k)
    requires forall j :: 0 <= j < k && j + 1 < |s| ==> s[j] != sep[0] || s[j + 1] != sep[1]
    ensures SplitHead(s, sep) == s[..k]
  {
    forall j | 0 <= j < k ensures !OccursAt(s, sep, j) {
      if j + |sep| <= |s| {
        assert s[j..j + |sep|][0] == s[j] && s[j..j + |sep|][1] == s[j + 1];
      }
    }
    SplitHeadUnique(s, sep, s[..k]);
  }

  /** `s.split(sep)[1]`: the text between the first and the second `sep` (or the end);
      `None` is the IndexError raised when `sep` does not occur at all. */
  function SplitSecond(s: string, sep: string): (r: Option<string>)
    requires |sep| > 0
    ensures r.None? <==> !Contains(s, sep)
  {
    match Find(s, sep)
    case None => None
    case Some(k) => Some(SplitHead(s[k + |sep|..], sep))
  }

  /** When `sep` starts with '/', cutting `s.split(sep)[1]` at its first '/' gives the
      text from just after the first `sep` up to the next '/' (or the end): the
      segment between two occurrences of `sep` ends at a '/' anyway. */
  lemma {:induction false} SplitSecondThenSlash(s: string, sep: string)
    requires |sep| > 0 && sep[0] == '/' && Contains(s, sep)
    ensures SplitHead(SplitSecond(s, sep).value, "/") == SplitHead(s[Find(s, sep).value + |sep|..], "/")
  {
    var rest := s[Find(s, sep).value + |sep|..];
    var seg := SplitHead(rest, sep);
    var b := SplitHead(rest, "/");
    if seg != rest {
      assert OccursAt(rest, "/", |seg|) by { assert rest[|seg|] == sep[0]; }
      assert |b| <= |seg|;
      assert b <= seg;
      forall j | 0 <= j < |b| ensures !OccursAt(seg, "/", j) {
        assert !OccursAt(rest, "/", j);
        assert seg[j] == rest[j];
      }
      if |b| < |seg| {
        assert OccursAt(rest, "/", |b|);
        assert seg[|b|] == rest[|b|];
        assert OccursAt(seg, "/", |b|);
      }
      SplitHeadUnique(seg, "/", b);
    }
  }

  // ---------------------------------------------------------------------------
  // replace

  /** `s.replace(c, repl)` for a one-character pattern `c`: every `c` is replaced by `repl`,
      every other character is kept, in order. */
  function ReplaceChar(s: string, c: char, repl: string): string
  {
    if s == [] then []
    else (if s[0] == c then repl else [s[0]]) + ReplaceChar(s[1..], c, repl)
  }

  /** Every character of the result comes from `repl` or is a character of `s` other
      than `c`: in particular no `c` is left unless `repl` has one. */
  lemma {:induction false} ReplaceCharMembers(s: string, c: char, repl: string)
    ensures forall x :: x in ReplaceChar(s, c, repl) ==> x in repl || (x in s && x != c)
  {
    if s != [] {
      ReplaceCharMembers(s[1..], c, repl);
      forall x | x in ReplaceChar(s, c, repl) ensures x in repl || (x in s && x != c) {
        if x !in (if s[0] == c then repl else [s[0]]) {
          assert x in ReplaceChar(s[1..], c, repl);
          if x !in repl {
            var i :| 0 <= i < |s[1..]| && s[1..][i] == x;
            assert s[i + 1] == x;
          }
        }
      }
    }
  }

  /** With a one-character replacement the length is kept and each character is
      replaced where it is `c` and kept elsewhere. */
  lemma {:induction false} ReplaceCharPointwise(s: string, c: char, repl: string)
    requires |repl| == 1
    ensures |ReplaceChar(s, c, repl)| == |s|
    ensures forall i :: 0 <= i < |s| ==> ReplaceChar(s, c, repl)[i] == (if s[i] == c then repl[0] else s[i])
  {
    if s != [] {
      ReplaceCharPointwise(s[1..], c, repl);
      var head := if s[0] == c then repl else [s[0]];
      forall i | 0 <= i < |s| ensures ReplaceChar(s, c, repl)[i] == (if s[i] == c then repl[0] else s[i]) {
        if i > 0 {
          assert ReplaceChar(s, c, repl)[i] == ReplaceChar(s[1..], c, repl)[i - 1];
          assert s[i] == s[1..][i - 1];
        }
      }
    }
  }

  /** Replacing in a concatenation replaces in each part. */
  lemma {:induction false} ReplaceCharAppend(a: string, b: string, c: char, repl: string)
    ensures ReplaceChar(a + b, c, repl) == ReplaceChar(a, c, repl) + ReplaceChar(b, c, repl)
  {
    if a == [] {
      assert a + b == b;
    } else {
      assert (a + b)[0] == a[0] && (a + b)[1..] == a[1..] + b;
      ReplaceCharAppend(a[1..], b, c, repl);
    }
  }

  /** A text without `c` is left as it is. */
  lemma {:induction false} ReplaceCharAbsent(s: string, c: char, repl: string)
    requires c !in s
    ensures ReplaceChar(s, c, repl) == s
  {
    if s != [] {
      assert s[0] != c;
      ReplaceCharAbsent(s[1..], c, repl);
    }
  }

  // ---------------------------------------------------------------------------
  // strip

  /** The characters `str.isspace` accepts. */
  predicate IsSpace(c: char)
  {
    c == ' ' || '\t' <= c <= '\r' || '\U{1C}' <= c <= '\U{1F}' || c == '\U{85}' || c == '\U{A0}'
    || c == '\U{1680}' || '\U{2000}' <= c <= '\U{200A}' || c == '\U{2028}' || c == '\U{2029}'
    || c == '\U{202F}' || c == '\U{205F}' || c == '\U{3000}'
  }

  function StripLeft(s: string): (r: string)
    ensures |r| <= |s| && r == s[|s| - |r|..]
    ensures forall k :: 0 <= k < |s| - |r| ==> IsSpace(s[k])
    ensures r != [] ==> !IsSpace(r[0])
  {
    if s != [] && IsSpace(s[0]) then StripLeft(s[1..]) else s
  }

  function StripRight(s: string): (r: string)
    ensures r <= s
    ensures forall k :: |r| <= k < |s| ==> IsSpace(s[k])
    ensures r != [] ==> !IsSpace(r[|r| - 1])
  {
    if s != [] && IsSpace(s[|s| - 1]) then StripRight(s[..|s| - 1]) else s
  }

  /** `r` is `s[i..]` less a tail, and only white space was cut away on either side. */
  predicate TrimmedAt(s: string, r: string, i: int)
  {
    0 <= i <= |s| - |r| && r == s[i..i + |r|]
    && (forall k :: 0 <= k < i ==> IsSpace(s[k]))
    && (forall k :: i + |r| <= k < |s| ==> IsSpace(s[k]))
  }

  /** `s.strip()`: `s` without its leading and trailing white space. */
  function Strip(s: string): (r: string)
    ensures r != [] ==> !IsSpace(r[0]) && !IsSpace(r[|r| - 1])
    ensures (s == [] || (!IsSpace(s[0]) && !IsSpace(s[|s| - 1]))) ==> r == s
  {
    StripRight(StripLeft(s))
  }

  /** What `strip` keeps is a piece of the text, and only white space lies around it. */
  lemma StripTrims(s: string)
    ensures TrimmedAt(s, Strip(s), |s| - |StripLeft(s)|)
  {
    var t := StripLeft(s);
    var i := |s| - |t|;
    StripRightTrims(t);
    ShiftTrimmed(s, t, Strip(s), i);
  }

  lemma StripRightTrims(t: string)
    ensures TrimmedAt(t, StripRight(t), 0)
  {
    var r := StripRight(t);
    assert r == t[0..|r|];
  }

  /** Trimming a suffix `t == s[i..]` of `s` whose head `s[..i]` is all white space
      trims `s`. */
  lemma ShiftTrimmed(s: string, t: string, r: string, i: int)
    requires 0 <= i <= |s| && t == s[i..]
    requires forall k :: 0 <= k < i ==> IsSpace(s[k])
    requires TrimmedAt(t, r, 0)
    ensures TrimmedAt(s, r, i)
  {
    assert r == s[i..i + |r|];
    forall k | i + |r| <= k < |s| ensures IsSpace(s[k]) {
      assert s[k] == t[k - i];
    }
  }

  // ---------------------------------------------------------------------------
  // int() and str()

  predicate IsDigit(c: char)
  {
    '0' <= c <= '9'
  }

  predicate AllDigits(s: string)
  {
    forall i :: 0 <= i < |s| ==> IsDigit(s[i])
  }

  /** The value of a string of decimal digits, most significant first. */
  function DigitsValue(s: string): nat
    requires AllDigits(s)
  {
    if s == [] then 0 else DigitsValue(s[..|s| - 1]) * 10 + (s[|s| - 1] as int - '0' as int)
  }

  /** What `int()` accepts once white space is stripped: an optional sign, then digits. */
  predicate IsIntLiteral(t: string)
  {
    if |t| > 0 && (t[0] == '+' || t[0] == '-') then |t| > 1 && AllDigits(t[1..])
    else |t| > 0 && AllDigits(t)
  }

  /** `int()` of an already stripped text: an optional sign, then decimal digits. */
  function ParseLiteral(t: string): (r: Result<int, PyError>)
    ensures r.Ok? <==> IsIntLiteral(t)
    ensures r.Err? ==> r.error == ValueError
  {
    if |t| > 0 && (t[0] == '+' || t[0] == '-') then
      if |t| > 1 && AllDigits(t[1..]) then
        var magnitude: int := DigitsValue(t[1..]);
        Ok(if t[0] == '-' then -magnitude else magnitude)
      else Err(ValueError)
    else if |t| > 0 && AllDigits(t) then Ok(DigitsValue(t))
    else Err(ValueError)
  }

  /** `int(text.strip())`: a ValueError unless the stripped text is an integer literal. */
  function ParseInt(text: string): (r: Result<int, PyError>)
    ensures r.Ok? <==> IsIntLiteral(Strip(text))
    ensures r.Err? ==> r.error == ValueError
  {
    ParseLiteral(Strip(text))
  }

  /** `str(n)` for a natural number: its decimal digits, most significant first. */
  function DecimalString(n: nat): (r: string)
    ensures |r| > 0 && AllDigits(r) && DigitsValue(r) == n
    ensures |r| > 1 ==> r[0] != '0'
  {
    var d := ['0' + (n % 10) as char];
    if n < 10 then d
    else
      var p := DecimalString(n / 10);
      assert (p + d)[..|p + d| - 1] == p;
      p + d
  }

  /** A literal of bare decimal digits has their value. */
  lemma ParseUnsigned(s: string)
    requires |s| > 0 && AllDigits(s)
    ensures ParseLiteral(s) == Ok(DigitsValue(s))
  {
    assert IsDigit(s[0]);
  }

  /** A text of decimal digits parses to their value. */
  lemma ParseDigits(s: string)
    requires |s| > 0 && AllDigits(s)
    ensures ParseInt(s) == Ok(DigitsValue(s))
  {
    DigitIsNotSpace(s[0]);
    DigitIsNotSpace(s[|s| - 1]);
    StripUnpadded(s);
    ParseUnsigned(s);
  }

  lemma DigitIsNotSpace(c: char)
    requires IsDigit(c)
    ensures !IsSpace(c)
  {
  }

  /** A text that neither starts nor ends with white space is its own `strip`. */
  lemma StripUnpadded(t: string)
    requires t != [] && !IsSpace(t[0]) && !IsSpace(t[|t| - 1])
    ensures Strip(t) == t
  {
    assert StripLeft(t) == t;
    assert StripRight(t) == t;
  }

  /** Leading white space goes, up to the first character that is not white space. */
  lemma {:induction false} StripLeftPadded(ws: string, t: string)
    requires forall k :: 0 <= k < |ws| ==> IsSpace(ws[k])
    requires t != [] && !IsSpace(t[0])
    ensures StripLeft(ws + t) == t
  {
    if ws != [] {
      assert (ws + t)[0] == ws[0];
      assert (ws + t)[1..] == ws[1..] + t;
      StripLeftPadded(ws[1..], t);
    } else {
      assert ws + t == t;
    }
  }

  /** Trailing white space goes, back to the last character that is not white space. */
  lemma {:induction false} StripRightPadded(t: string, ws: string)
    requires forall k :: 0 <= k < |ws| ==> IsSpace(ws[k])
    requires t != [] && !IsSpace(t[|t| - 1])
    ensures StripRight(t + ws) == t
    decreases |ws|
  {
    if ws != [] {
      var init := ws[..|ws| - 1];
      assert (t + ws)[|t + ws| - 1] == ws[|ws| - 1];
      assert (t + ws)[..|t + ws| - 1] == t + init;
      StripRightPadded(t, init);
    } else {
      assert t + ws == t;
    }
  }

  /** White space around a text that neither starts nor ends with white space is
      what `strip` removes. */
  lemma StripPadded(ws1: string, t: string, ws2: string)
    requires forall k :: 0 <= k < |ws1| ==> IsSpace(ws1[k])
    requires forall k :: 0 <= k < |ws2| ==> IsSpace(ws2[k])
    requires t != [] && !IsSpace(t[0]) && !IsSpace(t[|t| - 1])
    ensures Strip(ws1 + t + ws2) == t
  {
    var s := ws1 + t + ws2;
    assert s == ws1 + (t + ws2);
    assert (t + ws2)[0] == t[0];
    StripLeftPadded(ws1, t + ws2);
    var l := StripLeft(s);
    assert l == t + ws2;
    StripRightPadded(t, ws2);
    assert Strip(s) == StripRight(l);
  }

  /** `int()` of a sign followed by digits: the digits' value, negated after '-'. */
  lemma ParseSigned(sign: char, d: string)
    requires sign == '+' || sign == '-'
    requires |d| > 0 && AllDigits(d)
    ensures ParseLiteral([sign] + d) == Ok(if sign == '-' then -(DigitsValue(d) as int) else DigitsValue(d) as int)
  {
    var t := [sign] + d;
    assert t[0] == sign && t[1..] == d;
    var magnitude: int := DigitsValue(t[1..]);
    assert ParseLiteral(t) == Ok(if t[0] == '-' then -magnitude else magnitude);
  }

  lemma Regroup(a: string, b: string, c: string, e: string)
    ensures a + b + c + e == a + (b + c) + e
  {
    assert a + b + c == a + (b + c);
  }

  /** The value of `int(text)` for a text that is white space, decimal digits and
      white space again: the digits' value. */
  lemma ParseUnsignedValue(ws1: string, d: string, ws2: string)
    requires forall k :: 0 <= k < |ws1| ==> IsSpace(ws1[k])
    requires forall k :: 0 <= k < |ws2| ==> IsSpace(ws2[k])
    requires |d| > 0 && AllDigits(d)
    ensures ParseInt(ws1 + d + ws2) == Ok(DigitsValue(d))
  {
    assert Strip(ws1 + d + ws2) == d by {
      DigitIsNotSpace(d[0]);
      DigitIsNotSpace(d[|d| - 1]);
      StripPadded(ws1, d, ws2);
    }
    ParseUnsigned(d);
  }

  /** The value of `int(text)` for a text that is white space, a sign, decimal digits
      and white space again: the digits' value, negated after '-'. */
  lemma ParseSignedValue(ws1: string, sign: char, d: string, ws2: string)
    requires forall k :: 0 <= k < |ws1| ==> IsSpace(ws1[k])
    requires forall k :: 0 <= k < |ws2| ==> IsSpace(ws2[k])
    requires sign == '+' || sign == '-'
    requires |d| > 0 && AllDigits(d)
    ensures ParseInt(ws1 + [sign] + d + ws2) == Ok(if sign == '-' then -(DigitsValue(d) as int) else DigitsValue(d) as int)
  {
    var t := [sign] + d;
    assert Strip(ws1 + [sign] + d + ws2) == t by {
      Regroup(ws1, [sign], d, ws2);
      assert t[0] == sign && t[|t| - 1] == d[|d| - 1];
      DigitIsNotSpace(d[|d| - 1]);
      StripPadded(ws1, t, ws2);
    }
    ParseSigned(sign, d);
  }

  /** `int(str(n)) == n`. */
  lemma ParseDecimal(n: nat)
    ensures ParseInt(DecimalString(n)) == Ok(n)
  {
    ParseDigits(DecimalString(n));
  }

  /** `str` is one-to-one on the naturals, so distinct page numbers give distinct texts. */
  lemma DecimalInjective(a: nat, b: nat)
    requires DecimalString(a) == DecimalString(b)
    ensures a == b
  {
  }
}
