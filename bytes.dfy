/** Byte strings as the Arduino `String` class handles them: substring search
    (`indexOf`), whitespace trimming (`trim`) and decimal parsing (`toInt`). */
module Bytes {

  type byte = bv8
  type Bytes = seq<byte>

  datatype Option<T> = None | Some(value: T)

  /** The bytes of an ASCII literal. */
  function Ascii(s: string): (r: Bytes)
    ensures |r| == |s|
  {
    seq(|s|, i requires 0 <= i < |s| => ((s[i] as int) % 256) as byte)
  }

  /** `needle` occurs in `hay` starting at index `i`. */
  predicate OccursAt(hay: Bytes, needle: Bytes, i: int)
  {
    0 <= i && i + |needle| <= |hay| && hay[i..i + |needle|] == needle
  }

  /** `String::indexOf(needle, from)`: the first occurrence at or after
      `from`, or -1 (`IndexOfSpec` states this). */
  function IndexOf(hay: Bytes, needle: Bytes, from: nat): (r: int)
    requires |needle| > 0
    ensures r == -1 || (from <= r && r + |needle| <= |hay|)
    decreases |hay| - from
  {
    if from + |needle| > |hay| then -1
    else if hay[from..from + |needle|] == needle then from
    else IndexOf(hay, needle, from + 1)
  }

  /** `IndexOf` finds the first occurrence at or after `from`, and -1 means
      there is none. */
  lemma {:induction false} IndexOfSpec(hay: Bytes, needle: Bytes, from: nat)
    requires |needle| > 0
    ensures var r := IndexOf(hay, needle, from);
      && (r >= 0 ==> OccursAt(hay, needle, r) && forall j :: from <= j < r ==> !OccursAt(hay, needle, j))
      && (r == -1 ==> forall j :: from <= j ==> !OccursAt(hay, needle, j))
    decreases |hay| - from
  {
    if from + |needle| <= |hay| && hay[from..from + |needle|] != needle {
      IndexOfSpec(hay, needle, from + 1);
    }
  }

  /** `String::indexOf(needle) != -1`. */
  predicate Contains(hay: Bytes, needle: Bytes)
    requires |needle| > 0
  {
    IndexOf(hay, needle, 0) >= 0
  }

  /** `indexOf(needle) != -1` holds exactly when the needle occurs somewhere. */
  lemma ContainsIff(hay: Bytes, needle: Bytes)
    requires |needle| > 0
    ensures Contains(hay, needle) <==> exists k :: OccursAt(hay, needle, k)
  {
    IndexOfSpec(hay, needle, 0);
  }

  /** An occurrence inside `hay[a..b]` is an occurrence in `hay`, shifted by `a`. */
  lemma {:induction false} ContainsInfix(hay: Bytes, a: nat, b: nat, needle: Bytes)
    requires a <= b <= |hay| && |needle| > 0
    ensures Contains(hay[a..b], needle) ==> Contains(hay, needle)
  {
    if Contains(hay[a..b], needle) {
      var t := hay[a..b];
      var k := IndexOf(t, needle, 0);
      IndexOfSpec(t, needle, 0);
      assert t[k..k + |needle|] == needle;
      forall i | 0 <= i < |needle| ensures hay[a + k + i] == needle[i] {
        assert t[k + i] == needle[i];
      }
      assert hay[a + k..a + k + |needle|] == needle;
      assert OccursAt(hay, needle, a + k);
      IndexOfSpec(hay, needle, 0);
    }
  }

  /** The first occurrence is found wherever the search starts, provided
      nothing occurs between the start and it. */
  lemma IndexOfFirst(hay: Bytes, needle: Bytes, from: nat, k: nat)
    requires |needle| > 0 && from <= k && OccursAt(hay, needle, k)
    requires forall j :: from <= j < k ==> !OccursAt(hay, needle, j)
    ensures IndexOf(hay, needle, from) == k
  {
    IndexOfSpec(hay, needle, from);
  }

  /** An occurrence found in `a` is still the first one once `b` is appended. */
  lemma {:induction false} IndexOfPrefix(a: Bytes, b: Bytes, needle: Bytes, from: nat)
    requires |needle| > 0 && IndexOf(a, needle, from) >= 0
    ensures IndexOf(a + b, needle, from) == IndexOf(a, needle, from)
    decreases |a| - from
  {
    var k := IndexOf(a, needle, from);
    IndexOfSpec(a, needle, from);
    assert (a + b)[from..from + |needle|] == a[from..from + |needle|];
    if k > from {
      IndexOfPrefix(a, b, needle, from + 1);
    }
  }

  /** A field between a head and a one-byte separator, sliced back out. */
  lemma FieldSlice(head: Bytes, field: Bytes, sep: Bytes, post: Bytes)
    ensures (head + field + sep + post)[|head|..|head| + |field|] == field
  {
  }

  /** Searching for a one-byte separator from the start of a field free of
      it finds the separator right after the field. */
  lemma FieldEnd(head: Bytes, field: Bytes, sep: Bytes, post: Bytes)
    requires |sep| == 1
    requires forall j :: 0 <= j < |field| ==> field[j] != sep[0]
    ensures IndexOf(head + field + sep + post, sep, |head|) == |head| + |field|
  {
    FieldSlice(head, field, sep, post);
    assert [sep[0]] == sep;
    IndexOfSeparator(head + field + sep + post, |head|, field, sep[0]);
  }

  /** The text after the first `tag` up to the next `sep` (Arduino's
      `indexOf` / `substring` idiom), or None when either search fails. */
  function Between(s: Bytes, tag: Bytes, sep: Bytes): (r: Option<Bytes>)
    requires |tag| > 0 && |sep| > 0
    ensures r.Some? ==> Contains(s, tag)
  {
    var start := IndexOf(s, tag, 0);
    if start == -1 then None
    else
      var from := start + |tag|;
      var end := IndexOf(s, sep, from);
      if end == -1 then None else Some(s[from..end])
  }

  /** Taking apart "head, field, separator, post", where the head ends with
      the first occurrence of the tag, yields the field. */
  lemma BetweenFound(head: Bytes, tag: Bytes, field: Bytes, sep: Bytes, post: Bytes)
    requires |tag| > 0 && |sep| == 1 && |tag| <= |head|
    requires IndexOf(head, tag, 0) == |head| - |tag|
    requires forall j :: 0 <= j < |field| ==> field[j] != sep[0]
    ensures Between(head + field + sep + post, tag, sep) == Some(field)
  {
    IndexOfPrefix(head, field, tag, 0);
    IndexOfPrefix(head + field, sep, tag, 0);
    IndexOfPrefix(head + field + sep, post, tag, 0);
    FieldEnd(head, field, sep, post);
    FieldSlice(head, field, sep, post);
    BetweenIs(head + field + sep + post, tag, sep, |head| - |tag|, |head|, |head| + |field|);
  }

  /** When both searches succeed, the text is what lies between them. */
  lemma BetweenIs(s: Bytes, tag: Bytes, sep: Bytes, start: nat, from: nat, end: nat)
    requires |tag| > 0 && |sep| > 0 && from == start + |tag|
    requires IndexOf(s, tag, 0) == start && IndexOf(s, sep, from) == end
    ensures from <= end <= |s|
    ensures Between(s, tag, sep) == Some(s[from..end])
  {
    assert from <= end <= |s|;
    assert Between(s, tag, sep).Some?;
  }

  /** Without the tag there is nothing to take. */
  lemma BetweenNoTag(s: Bytes, tag: Bytes, sep: Bytes)
    requires |tag| > 0 && |sep| > 0 && !Contains(s, tag)
    ensures Between(s, tag, sep) == None
  {
  }

  /** Without a separator after the tag there is nothing to take. */
  lemma BetweenNoSeparator(s: Bytes, tag: Bytes, sep: Bytes, from: nat)
    requires |tag| > 0 && |sep| > 0
    requires IndexOf(s, tag, 0) >= 0 && from == IndexOf(s, tag, 0) + |tag|
    requires !Contains(s[from..], sep)
    ensures Between(s, tag, sep) == None
  {
    NotAfter(s, sep, from);
    BetweenNoEnd(s, tag, sep, from);
  }

  /** A failed search for the separator leaves nothing to take. */
  lemma BetweenNoEnd(s: Bytes, tag: Bytes, sep: Bytes, from: nat)
    requires |tag| > 0 && |sep| > 0
    requires IndexOf(s, tag, 0) >= 0 && from == IndexOf(s, tag, 0) + |tag|
    requires IndexOf(s, sep, from) == -1
    ensures Between(s, tag, sep) == None
  {
  }

  /** An occurrence at or after `from` would be one in `s[from..]`. */
  lemma NotAfter(s: Bytes, sep: Bytes, from: nat)
    requires |sep| > 0 && from <= |s| && !Contains(s[from..], sep)
    ensures IndexOf(s, sep, from) == -1
  {
    var t := s[from..];
    IndexOfSpec(t, sep, 0);
    forall j | from <= j ensures !OccursAt(s, sep, j) {
      assert !OccursAt(t, sep, j - from);
      if j + |sep| <= |s| {
        assert t[j - from..j - from + |sep|] == s[j..j + |sep|];
      }
    }
    IndexOfSpec(s, sep, from);
  }

  /** A separator byte right after a field free of it is the next one found. */
  lemma IndexOfSeparator(s: Bytes, from: nat, field: Bytes, sep: byte)
    requires from + |field| < |s| && s[from..from + |field|] == field && s[from + |field|] == sep
    requires forall j :: 0 <= j < |field| ==> field[j] != sep
    ensures IndexOf(s, [sep], from) == from + |field|
  {
    var end := from + |field|;
    forall j | from <= j < end ensures !OccursAt(s, [sep], j) {
      assert s[j] == field[j - from];
    }
    assert s[end..end + 1] == [sep];
    IndexOfFirst(s, [sep], from, end);
  }

  /** C `isspace` in the default locale: space, \t, \n, \v, \f, \r. */
  predicate IsSpace(b: byte)
  {
    b == 0x20 || (0x09 <= b <= 0x0D)
  }

  /** Index of the first byte that is not whitespace (|s| if none). */
  function SkipSpace(s: Bytes, i: nat): (r: nat)
    requires i <= |s|
    ensures i <= r <= |s|
    ensures forall j :: i <= j < r ==> IsSpace(s[j])
    ensures r < |s| ==> !IsSpace(s[r])
    decreases |s| - i
  {
    if i < |s| && IsSpace(s[i]) then SkipSpace(s, i + 1) else i
  }

  /** One past the last byte at or after `lo` that is not whitespace (`lo` if none). */
  function TrimEndAt(s: Bytes, lo: nat, hi: nat): (r: nat)
    requires lo <= hi <= |s|
    ensures lo <= r <= hi
    ensures forall j :: r <= j < hi ==> IsSpace(s[j])
    ensures r > lo ==> !IsSpace(s[r - 1])
    decreases hi - lo
  {
    if hi > lo && IsSpace(s[hi - 1]) then TrimEndAt(s, lo, hi - 1) else hi
  }

  /** `String::trim()`: the bounds of what remains after whitespace is
      removed from both ends. */
  function TrimBounds(s: Bytes): (r: (nat, nat))
    ensures r.0 <= r.1 <= |s|
  {
    var lo := SkipSpace(s, 0);
    (lo, TrimEndAt(s, lo, |s|))
  }

  /** `String::trim()`. */
  function Trim(s: Bytes): (r: Bytes)
    ensures |r| <= |s|
    ensures |r| > 0 ==> !IsSpace(r[0]) && !IsSpace(r[|r| - 1])
  {
    s[TrimBounds(s).0..TrimBounds(s).1]
  }

  /** What `trim()` keeps is an infix of the input, starts and ends with a
      non-space byte, and every byte it drops is whitespace. */
  lemma TrimSpec(s: Bytes)
    ensures var (lo, hi) := TrimBounds(s);
      && Trim(s) == s[lo..hi]
      && (forall j :: 0 <= j < lo ==> IsSpace(s[j]))
      && (forall j :: hi <= j < |s| ==> IsSpace(s[j]))
      && (|Trim(s)| > 0 ==> !IsSpace(Trim(s)[0]) && !IsSpace(Trim(s)[|Trim(s)| - 1]))
  {
  }

  /** Trimming never creates an occurrence of a needle. */
  lemma TrimContains(s: Bytes, needle: Bytes)
    requires |needle| > 0
    ensures Contains(Trim(s), needle) ==> Contains(s, needle)
  {
    ContainsInfix(s, TrimBounds(s).0, TrimBounds(s).1, needle);
  }

  /** Trimming is idempotent. */
  lemma {:induction false} TrimIdempotent(s: Bytes)
    ensures Trim(Trim(s)) == Trim(s)
  {
    var t := Trim(s);
    TrimSpec(s);
    if |t| > 0 {
      assert SkipSpace(t, 0) == 0;
      assert TrimEndAt(t, 0, |t|) == |t|;
    } else {
      assert TrimBounds(t) == (0, 0);
    }
  }

  /** Trimming never hides a keyword whose first and last bytes are not
      whitespace: such a keyword occurs in the trimmed text exactly when it
      occurs in the original. */
  lemma TrimKeepsKeyword(s: Bytes, needle: Bytes)
    requires |needle| > 0 && !IsSpace(needle[0]) && !IsSpace(needle[|needle| - 1])
    ensures Contains(Trim(s), needle) <==> Contains(s, needle)
  {
    TrimContains(s, needle);
    if Contains(s, needle) {
      var k := IndexOf(s, needle, 0);
      IndexOfSpec(s, needle, 0);
      TrimKeepsOccurrence(s, needle, k);
      ContainsAt(Trim(s), needle, k - TrimBounds(s).0);
    }
  }

  /** An occurrence that starts and ends with non-space bytes survives
      trimming, shifted by what was cut at the front. */
  lemma TrimKeepsOccurrence(s: Bytes, needle: Bytes, k: nat)
    requires |needle| > 0 && !IsSpace(needle[0]) && !IsSpace(needle[|needle| - 1])
    requires OccursAt(s, needle, k)
    ensures TrimBounds(s).0 <= k && OccursAt(Trim(s), needle, k - TrimBounds(s).0)
  {
    var (lo, hi) := TrimBounds(s);
    TrimSpec(s);
    assert s[k] == needle[0];
    assert s[k + |needle| - 1] == needle[|needle| - 1];
    assert Trim(s)[k - lo..k - lo + |needle|] == s[k..k + |needle|];
  }

  /** An occurrence anywhere means the needle is contained. */
  lemma ContainsAt(hay: Bytes, needle: Bytes, k: nat)
    requires |needle| > 0 && OccursAt(hay, needle, k)
    ensures Contains(hay, needle)
  {
    IndexOfSpec(hay, needle, 0);
  }

  predicate IsDigit(b: byte)
  {
    0x30 <= b <= 0x39
  }

  /** The ASCII digits '0' to '9'. */
  const DigitBytes: seq<byte> := [0x30, 0x31, 0x32, 0x33, 0x34, 0x35, 0x36, 0x37, 0x38, 0x39]

  /** The value of an ASCII digit. */
  function DigitValue(b: byte): (d: nat)
    requires IsDigit(b)
    ensures d < 10 && DigitBytes[d] == b
  {
    (b as int) - 0x30
  }

  /** Value of the run of decimal digits starting at `i`, read left to right
      with running accumulator `acc`; `atol` stops at the first non-digit. */
  function DigitsValue(s: Bytes, i: nat, acc: nat): (r: nat)
    requires i <= |s|
    ensures r >= acc
    decreases |s| - i
  {
    if i < |s| && IsDigit(s[i]) then DigitsValue(s, i + 1, acc * 10 + DigitValue(s[i]))
    else acc
  }

  /** Range of the 32-bit `long` that `toInt` returns. */
  const LongMax: int := 0x7FFF_FFFF
  const LongMin: int := -0x8000_0000

  /** `strtol` out of range: a value above `LONG_MAX` reads as `LONG_MAX`,
      one below `LONG_MIN` as `LONG_MIN`. */
  function Saturate(v: int): (r: int)
    ensures LongMin <= r <= LongMax
    ensures LongMin <= v <= LongMax ==> r == v
    ensures v > LongMax ==> r == LongMax
    ensures v < LongMin ==> r == LongMin
  {
    if v > LongMax then LongMax else if v < LongMin then LongMin else v
  }

  /** `String::toInt()`, that is `atol` (newlib's `strtol` in base 10):
      leading whitespace, an optional sign, then decimal digits; 0 when there
      are none, and saturated to the 32-bit `long` range. */
  function ToInt(s: Bytes): (r: int)
    ensures LongMin <= r <= LongMax
  {
    var i := SkipSpace(s, 0);
    if i < |s| && s[i] == 0x2D then Saturate(-(DigitsValue(s, i + 1, 0) as int))
    else if i < |s| && s[i] == 0x2B then Saturate(DigitsValue(s, i + 1, 0))
    else Saturate(DigitsValue(s, i, 0))
  }

  /** Decimal digits of a natural number, most significant first. */
  function Decimal(n: nat): (r: Bytes)
    ensures |r| > 0 && forall j :: 0 <= j < |r| ==> IsDigit(r[j])
    decreases n
  {
    if n < 10 then [DigitBytes[n]] else Decimal(n / 10) + [DigitBytes[n % 10]]
  }

  lemma DigitRoundTrip(d: nat)
    requires d < 10
    ensures IsDigit(DigitBytes[d]) && DigitValue(DigitBytes[d]) == d
  {
  }

  /** One digit step of `DigitsValue`, followed by a non-digit. */
  lemma LastDigit(s: Bytes, i: nat, acc: nat, d: nat)
    requires i < |s| && d < 10 && s[i] == DigitBytes[d]
    requires i + 1 == |s| || !IsDigit(s[i + 1])
    ensures DigitsValue(s, i, acc) == acc * 10 + d
  {
    DigitRoundTrip(d);
  }

  /** Reading digits that were printed by `Decimal` gives the number back,
      whatever follows the digits (as long as it is not a digit). */
  lemma {:induction false} DigitsOfDecimal(n: nat, tail: Bytes, acc: nat)
    requires tail == [] || !IsDigit(tail[0])
    ensures DigitsValue(Decimal(n) + tail, 0, acc) == DigitsValueAfter(acc, n)
    decreases n
  {
    var s := Decimal(n) + tail;
    if n < 10 {
      LastDigit(s, 0, acc, n);
    } else {
      var pre := Decimal(n / 10);
      var post := [DigitBytes[n % 10]] + tail;
      assert s == pre + post;
      DigitsOfDecimal(n / 10, [], acc);
      assert pre + [] == pre;
      DigitsShift(pre, post, acc);
      var m := DigitsValueAfter(acc, n / 10);
      LastDigit(s, |pre|, m, n % 10);
      DigitsValueAfterStep(acc, n);
    }
  }

  /** The accumulator after reading the digits of `n` on top of `acc`. */
  function DigitsValueAfter(acc: nat, n: nat): nat
  {
    acc * Power10(|Decimal(n)|) + n
  }

  function Power10(k: nat): (r: nat)
    ensures r >= 1
  {
    if k == 0 then 1 else 10 * Power10(k - 1)
  }

  lemma DigitsValueAfterStep(acc: nat, n: nat)
    requires n >= 10
    ensures DigitsValueAfter(acc, n / 10) * 10 + n % 10 == DigitsValueAfter(acc, n)
  {
    assert |Decimal(n)| == |Decimal(n / 10)| + 1;
    var p := Power10(|Decimal(n / 10)|);
    assert Power10(|Decimal(n)|) == 10 * p;
    calc {
      DigitsValueAfter(acc, n / 10) * 10 + n % 10;
      (acc * p + n / 10) * 10 + n % 10;
      acc * (10 * p) + (n / 10) * 10 + n % 10;
      acc * Power10(|Decimal(n)|) + n;
    }
  }

  /** Reading a run of digits that is followed by more bytes continues from
      the accumulator the prefix left behind. */
  lemma {:induction false} DigitsShift(pre: Bytes, post: Bytes, acc: nat)
    requires forall j :: 0 <= j < |pre| ==> IsDigit(pre[j])
    ensures DigitsValue(pre + post, 0, acc) == DigitsValue(pre + post, |pre|, DigitsValue(pre, 0, acc))
  {
    DigitsShiftFrom(pre, post, 0, acc);
  }

  lemma {:induction false} DigitsShiftFrom(pre: Bytes, post: Bytes, i: nat, acc: nat)
    requires i <= |pre|
    requires forall j :: 0 <= j < |pre| ==> IsDigit(pre[j])
    ensures DigitsValue(pre + post, i, acc) == DigitsValue(pre + post, |pre|, DigitsValue(pre, i, acc))
    decreases |pre| - i
  {
    if i < |pre| {
      assert (pre + post)[i] == pre[i];
      DigitsShiftFrom(pre, post, i + 1, acc * 10 + DigitValue(pre[i]));
    }
  }

  /** `toInt` reads back the decimal digits of a natural number, whatever
      non-digit bytes follow them; a number beyond `LONG_MAX` saturates. */
  lemma ToIntDecimal(n: nat, tail: Bytes)
    requires tail == [] || !IsDigit(tail[0])
    ensures ToInt(Decimal(n) + tail) == if n <= LongMax then n else LongMax
  {
    var s := Decimal(n) + tail;
    assert IsDigit(s[0]);
    assert SkipSpace(s, 0) == 0;
    DigitsOfDecimal(n, tail, 0);
  }

  /** `toInt` reads back the decimal digits of a natural number, saturated. */
  lemma ToIntOfDecimal(n: nat)
    ensures ToInt(Decimal(n)) == if n <= LongMax then n else LongMax
  {
    assert Decimal(n) + [] == Decimal(n);
    ToIntDecimal(n, []);
  }

  /** The decimal digits of a number contain no byte that is not a digit. */
  lemma DecimalAvoids(n: nat, b: byte)
    requires !IsDigit(b)
    ensures forall j :: 0 <= j < |Decimal(n)| ==> Decimal(n)[j] != b
  {
  }
}
