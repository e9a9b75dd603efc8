/**
 * The Python `str` built-ins the portfolio tool relies on, stated over `seq<char>`:
 * `strip()`, `split(sep)`, `split(sep, 1)`, `sep.join(parts)`, `ljust(width)`,
 * `isdigit()`, `int(s)`, `str(n)` and the zero-padded format `f"{n:0Wd}"`.
 */
module PyText {

  /** A Python value that may be `None`. */
  datatype Option<T> = None | Some(value: T)

  /** The characters `str.isspace()` accepts, which is what `str.strip()` removes. */
  predicate IsSpace(c: char) {
    || c == ' ' || c == '\t' || c == '\n' || c == '\r' || c == '\U{000B}' || c == '\U{000C}'
    || ('\U{001C}' <= c <= '\U{001F}') || c == '\U{0085}' || c == '\U{00A0}' || c == '\U{1680}'
    || ('\U{2000}' <= c <= '\U{200A}') || c == '\U{2028}' || c == '\U{2029}' || c == '\U{202F}'
    || c == '\U{205F}' || c == '\U{3000}'
  }

  predicate AllSpace(s: string) {
    forall k :: 0 <= k < |s| ==> IsSpace(s[k])
  }

  lemma AllSpaceConcat(a: string, b: string)
    ensures AllSpace(a + b) <==> AllSpace(a) && AllSpace(b)
  {
    if AllSpace(a) && AllSpace(b) {
      forall k | 0 <= k < |a + b| ensures IsSpace((a + b)[k]) {
        if k >= |a| { assert (a + b)[k] == b[k - |a|]; }
      }
    }
    if AllSpace(a + b) {
      forall k | 0 <= k < |a| ensures IsSpace(a[k]) {
        assert (a + b)[k] == a[k];
      }
      forall k | 0 <= k < |b| ensures IsSpace(b[k]) {
        assert (a + b)[|a| + k] == b[k];
      }
    }
  }

  /** `r` is `s` with an all-whitespace prefix of length `i` and an all-whitespace suffix cut off. */
  predicate Trims(s: string, i: nat, r: string) {
    && i + |r| <= |s|
    && r == s[i..i + |r|]
    && AllSpace(s[..i])
    && AllSpace(s[i + |r|..])
  }

  /** The first position at or after `i` that does not hold whitespace (or `|s|`). */
  function SkipSpaceFrom(s: string, i: nat): (j: nat)
    requires i <= |s|
    ensures i <= j <= |s|
    ensures forall k :: i <= k < j ==> IsSpace(s[k])
    ensures j < |s| ==> !IsSpace(s[j])
    decreases |s| - i
  {
    if i < |s| && IsSpace(s[i]) then SkipSpaceFrom(s, i + 1) else i
  }

  /** The smallest `j` in `lo..e` such that `s[j..e]` is all whitespace. */
  function BackSpaceFrom(s: string, lo: nat, e: nat): (j: nat)
    requires lo <= e <= |s|
    ensures lo <= j <= e
    ensures forall k :: j <= k < e ==> IsSpace(s[k])
    ensures j > lo ==> !IsSpace(s[j - 1])
  {
    if e > lo && IsSpace(s[e - 1]) then BackSpaceFrom(s, lo, e - 1) else e
  }

  /** Python's `s.strip()`: `s` without its leading and its trailing whitespace. */
  function Strip(s: string): string
  {
    var i := SkipSpaceFrom(s, 0);
    s[i..BackSpaceFrom(s, i, |s|)]
  }

  /**
   * `strip()` leaves nothing exactly when `s` is all whitespace, and otherwise a string that
   * neither starts nor ends with whitespace.
   */
  lemma StripSpec(s: string)
    ensures Strip(s) == [] <==> AllSpace(s)
    ensures Strip(s) != [] ==> !IsSpace(Strip(s)[0]) && !IsSpace(Strip(s)[|Strip(s)| - 1])
  {
    var i := SkipSpaceFrom(s, 0);
    assert i < |s| ==> !AllSpace(s);
  }

  /** What `strip()` removes is whitespace at either end: the result is an infix of `s`. */
  lemma StripTrims(s: string)
    ensures Trims(s, SkipSpaceFrom(s, 0), Strip(s))
  {
    var i := SkipSpaceFrom(s, 0);
    var e := BackSpaceFrom(s, i, |s|);
    assert forall k :: 0 <= k < i ==> s[..i][k] == s[k];
    assert forall k :: 0 <= k < |s| - e ==> s[e..][k] == s[e + k];
  }

  /** Stripping a string that neither starts nor ends with whitespace leaves it unchanged. */
  lemma StripUnchanged(s: string)
    requires s != [] ==> !IsSpace(s[0]) && !IsSpace(s[|s| - 1])
    ensures Strip(s) == s
  {
    if s != [] {
      assert !AllSpace(s);
    }
  }

  lemma {:induction false} StripIdempotent(s: string)
    ensures Strip(Strip(s)) == Strip(s)
  {
    StripSpec(s);
    StripUnchanged(Strip(s));
  }

  /** Number of occurrences of `c` in `s` (`s.count(c)`). */
  function Count(s: string, c: char): nat
  {
    if s == [] then 0 else (if s[0] == c then 1 else 0) + Count(s[1..], c)
  }

  lemma {:induction false} CountZero(s: string, c: char)
    ensures Count(s, c) == 0 <==> c !in s
  {
    if s != [] {
      CountZero(s[1..], c);
      assert c in s <==> s[0] == c || c in s[1..];
    }
  }

  /** Python's `sep.join(parts)`. */
  function Join(parts: seq<string>, sep: string): string
  {
    if |parts| == 0 then []
    else if |parts| == 1 then parts[0]
    else parts[0] + sep + Join(parts[1..], sep)
  }

  /** `c` occurs in a join only if it occurs in the separator or in one of the parts. */
  lemma {:induction false} JoinExcludes(parts: seq<string>, sep: string, c: char)
    requires c !in sep
    requires forall k :: 0 <= k < |parts| ==> c !in parts[k]
    ensures c !in Join(parts, sep)
  {
    if |parts| > 1 {
      JoinExcludes(parts[1..], sep, c);
    }
  }

  /**
   * Python's `s.split(sep)` for a one-character separator: the pieces between consecutive
   * separators. The three postconditions determine the result uniquely.
   */
  function Split(s: string, sep: char): (parts: seq<string>)
    ensures |parts| == Count(s, sep) + 1
    ensures forall k :: 0 <= k < |parts| ==> sep !in parts[k]
    ensures Join(parts, [sep]) == s
  {
    if s == [] then [[]]
    else
      var rest := Split(s[1..], sep);
      if s[0] == sep then
        assert s == [sep] + s[1..];
        [[]] + rest
      else
        var parts := [[s[0]] + rest[0]] + rest[1..];
        assert parts[1..] == rest[1..];
        assert Join(parts, [sep]) == [s[0]] + Join(rest, [sep]);
        parts
  }

  lemma SplitSingle(a: string, sep: char)
    requires sep !in a
    ensures Split(a, sep) == [a]
  {
    CountZero(a, sep);
  }

  /** Splitting distributes over a separator occurrence. */
  lemma {:induction false} SplitConcat(a: string, b: string, sep: char)
    ensures Split(a + [sep] + b, sep) == Split(a, sep) + Split(b, sep)
  {
    var s := a + [sep] + b;
    if a == [] {
      assert s[1..] == b;
    } else {
      assert s[1..] == a[1..] + [sep] + b;
      SplitConcat(a[1..], b, sep);
    }
  }

  /** `split` inverts `join` whenever no part contains the separator. */
  lemma {:induction false} SplitJoin(parts: seq<string>, sep: char)
    requires |parts| >= 1
    requires forall k :: 0 <= k < |parts| ==> sep !in parts[k]
    ensures Split(Join(parts, [sep]), sep) == parts
  {
    if |parts| == 1 {
      SplitSingle(parts[0], sep);
    } else {
      SplitJoin(parts[1..], sep);
      SplitConcat(parts[0], Join(parts[1..], [sep]), sep);
      SplitSingle(parts[0], sep);
    }
  }

  /** Index of the first occurrence of `c` in `s` (`s.index(c)`). */
  function IndexOf(s: string, c: char): (i: nat)
    requires c in s
    ensures i < |s| && s[i] == c && c !in s[..i]
  {
    if s[0] == c then 0
    else
      var i := 1 + IndexOf(s[1..], c);
      assert s[..i] == [s[0]] + s[1..][..i - 1];
      i
  }

  /** Python's `s.split(sep, 1)`: at most one cut, at the first separator. */
  function SplitOnce(s: string, sep: char): (parts: seq<string>)
    ensures sep !in s ==> parts == [s]
    ensures sep in s ==> |parts| == 2 && sep !in parts[0] && parts[0] + [sep] + parts[1] == s
  {
    if sep in s then
      var i := IndexOf(s, sep);
      assert s == s[..i] + [sep] + s[i + 1..];
      [s[..i], s[i + 1..]]
    else
      [s]
  }

  function Repeat(c: char, n: nat): (r: string)
    ensures |r| == n && forall k :: 0 <= k < n ==> r[k] == c
  {
    seq(n, _ => c)
  }

  /** Python's `s.ljust(width)`: `s` followed by spaces up to `width` characters. */
  function Ljust(s: string, width: nat): (r: string)
    ensures |r| == if |s| < width then width else |s|
    ensures r[..|s|] == s
    ensures forall k :: |s| <= k < |r| ==> r[k] == ' '
  {
    if |s| < width then s + Repeat(' ', width - |s|) else s
  }

  /** Where `line` holds `s.ljust(width)` at `o`, it holds `s`'s text and then spaces. */
  lemma LjustWithin(line: string, o: nat, s: string, width: nat)
    requires |s| <= width && o + width <= |line| && line[o..o + width] == Ljust(s, width)
    ensures line[o..o + |s|] == s
    ensures forall p :: o + |s| <= p < o + width ==> line[p] == ' '
  {
    var cell := line[o..o + width];
    assert line[o..o + |s|] == cell[..|s|];
    forall p | o + |s| <= p < o + width ensures line[p] == ' ' {
      assert line[p] == cell[p - o];
    }
  }

  function Sum(ws: seq<nat>): nat
  {
    if ws == [] then 0 else ws[0] + Sum(ws[1..])
  }

  /** Where the `i`-th part starts in a join of parts of lengths `ws` around a separator of length `sepLen`. */
  function Offset(ws: seq<nat>, sepLen: nat, i: nat): nat
    requires i <= |ws|
  {
    if i == 0 then 0 else ws[0] + sepLen + Offset(ws[1..], sepLen, i - 1)
  }

  lemma SliceAfter(a: string, b: string, x: nat, y: nat)
    requires x <= y <= |b|
    ensures (a + b)[|a| + x..|a| + y] == b[x..y]
  {
  }

  /** Length of `sep.join(parts)` when part `k` has length `ws[k]`. */
  lemma {:induction false} JoinLength(parts: seq<string>, sep: string, ws: seq<nat>)
    requires |parts| == |ws| >= 1
    requires forall k :: 0 <= k < |parts| ==> |parts[k]| == ws[k]
    ensures |Join(parts, sep)| == Sum(ws) + |sep| * (|ws| - 1)
  {
    if |parts| > 1 {
      JoinLength(parts[1..], sep, ws[1..]);
      assert |sep| * (|ws| - 1) == |sep| + |sep| * (|ws| - 2);
    }
  }

  /** In `sep.join(parts)`, part `i` sits at `Offset(ws, |sep|, i)`. */
  lemma {:induction false} JoinPartAt(parts: seq<string>, sep: string, ws: seq<nat>, i: nat)
    requires |parts| == |ws| && i < |parts|
    requires forall k :: 0 <= k < |parts| ==> |parts[k]| == ws[k]
    ensures Offset(ws, |sep|, i) + ws[i] <= |Join(parts, sep)|
    ensures Join(parts, sep)[Offset(ws, |sep|, i)..Offset(ws, |sep|, i) + ws[i]] == parts[i]
  {
    if |parts| > 1 {
      var a := parts[0] + sep;
      var jr := Join(parts[1..], sep);
      assert Join(parts, sep) == a + jr;
      if i > 0 {
        JoinPartAt(parts[1..], sep, ws[1..], i - 1);
        var o := Offset(ws[1..], |sep|, i - 1);
        SliceAfter(a, jr, o, o + ws[i]);
      }
    }
  }

  /** In `sep.join(parts)`, the separator follows every part but the last. */
  lemma {:induction false} JoinSepAt(parts: seq<string>, sep: string, ws: seq<nat>, i: nat)
    requires |parts| == |ws| && i + 1 < |parts|
    requires forall k :: 0 <= k < |parts| ==> |parts[k]| == ws[k]
    ensures Offset(ws, |sep|, i) + ws[i] + |sep| == Offset(ws, |sep|, i + 1) <= |Join(parts, sep)|
    ensures Join(parts, sep)[Offset(ws, |sep|, i) + ws[i]..Offset(ws, |sep|, i + 1)] == sep
  {
    var a := parts[0] + sep;
    var jr := Join(parts[1..], sep);
    assert Join(parts, sep) == a + jr;
    assert forall k :: 0 <= k < |parts| - 1 ==> |parts[1..][k]| == ws[1..][k];
    if i == 0 {
      JoinPartAt(parts[1..], sep, ws[1..], 0);
      assert (a + jr)[ws[0]..ws[0] + |sep|] == sep;
    } else {
      JoinSepAt(parts[1..], sep, ws[1..], i - 1);
      var o := Offset(ws[1..], |sep|, i - 1) + ws[i];
      SliceAfter(a, jr, o, o + |sep|);
    }
  }

  // ---- digits: `str.isdigit()`, `int(s)`, `str(n)`, `f"{n:0Wd}"` ----

  predicate IsDigit(c: char) {
    '0' <= c <= '9'
  }

  predicate AllDigits(s: string) {
    forall k :: 0 <= k < |s| ==> IsDigit(s[k])
  }

  /** Python's `s.isdigit()` restricted to ASCII digits: non-empty and digits only. */
  predicate IsDigits(s: string) {
    |s| > 0 && AllDigits(s)
  }

  function DigitChar(d: nat): (c: char)
    requires d < 10
    ensures IsDigit(c)
  {
    ('0' as int + d) as char
  }

  /** Python's `int(s)` on a string of decimal digits. */
  function ParseNat(s: string): nat
    requires AllDigits(s)
  {
    if s == [] then 0 else ParseNat(s[..|s| - 1]) * 10 + (s[|s| - 1] as int - '0' as int)
  }

  /** Python's `str(n)` for a natural number. */
  function Decimal(n: nat): (s: string)
    ensures IsDigits(s)
    ensures ParseNat(s) == n
    ensures |s| > 1 ==> s[0] != '0'
  {
    if n < 10 then
      [DigitChar(n)]
    else
      var s := Decimal(n / 10) + [DigitChar(n % 10)];
      assert s[..|s| - 1] == Decimal(n / 10);
      s
  }

  function Pow10(k: nat): nat
  {
    if k == 0 then 1 else 10 * Pow10(k - 1)
  }

  /** `str(n)` has more than `k` digits exactly when `n` is at least `10^k`. */
  lemma {:induction false} DecimalLength(n: nat, k: nat)
    requires k >= 1
    ensures |Decimal(n)| <= k <==> n < Pow10(k)
  {
    if n >= 10 && k > 1 {
      DecimalLength(n / 10, k - 1);
    } else if n >= 10 {
      assert |Decimal(n)| >= 2;
    } else if k > 1 {
      PowAtLeast(k);
    }
  }

  lemma {:induction false} PowAtLeast(k: nat)
    requires k >= 1
    ensures Pow10(k) >= 10
  {
    if k > 1 {
      PowAtLeast(k - 1);
    }
  }

  /** Python's `f"{n:0{width}d}"`: `str(n)` left-padded with zeros to at least `width` characters. */
  function ZeroPad(n: nat, width: nat): (s: string)
    ensures IsDigits(s)
    ensures |s| == if |Decimal(n)| < width then width else |Decimal(n)|
    ensures s[|s| - |Decimal(n)|..] == Decimal(n)
    ensures forall k :: 0 <= k < |s| - |Decimal(n)| ==> s[k] == '0'
  {
    var d := Decimal(n);
    if |d| < width then Repeat('0', width - |d|) + d else d
  }

  /** Leading zeros do not change the value `int()` reads. */
  lemma {:induction false} ParseLeadingZeros(z: nat, s: string)
    requires AllDigits(s)
    ensures AllDigits(Repeat('0', z) + s)
    ensures ParseNat(Repeat('0', z) + s) == ParseNat(s)
  {
    var t := Repeat('0', z) + s;
    if s == [] {
      assert t == Repeat('0', z);
      if z > 0 {
        assert t[..|t| - 1] == Repeat('0', z - 1) + [];
        ParseLeadingZeros(z - 1, []);
      }
    } else {
      assert t[..|t| - 1] == Repeat('0', z) + s[..|s| - 1];
      ParseLeadingZeros(z, s[..|s| - 1]);
    }
  }

  /** The zero-padded format reads back as the number it formats. */
  lemma ZeroPadParses(n: nat, width: nat)
    ensures ParseNat(ZeroPad(n, width)) == n
  {
    var d := Decimal(n);
    if |d| < width {
      ParseLeadingZeros(width - |d|, d);
    }
  }
}
