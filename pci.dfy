/**
 * The scanner `DPDKDeviceArg::parse` uses for a PCI address written
 * `dddd:bb:dd.f`: four hexadecimal fields (domain, bus, device, function)
 * of at most 4, 2, 2 and 1 digits, separated by ':', ':' and '.'.
 *
 * The prefix the scanner has read is described by its position n in the
 * string: `FieldsOf(s, n)` and `SeparatorsOf(s, n)` cut the first n
 * characters of `s` at every separator.
 */
module PciAddress {

  predicate IsHexDigit(c: char) {
    '0' <= c <= '9' || 'a' <= c <= 'f' || 'A' <= c <= 'F'
  }

  /** The value of a hexadecimal digit, in either case. */
  function DigitValue(c: char): (v: nat)
    requires IsHexDigit(c)
    ensures v < 16
    ensures '0' <= c <= '9' ==> v == c as int - '0' as int
    ensures 'a' <= c <= 'f' ==> v == 10 + (c as int - 'a' as int)
    ensures 'A' <= c <= 'F' ==> v == 10 + (c as int - 'A' as int)
  {
    if c <= '9' then c as int - '0' as int
    else if c <= 'F' then c as int - 'A' as int + 10
    else c as int - 'a' as int + 10
  }

  predicate IsSeparator(c: char) {
    c == ':' || c == '.'
  }

  /** The most digits field k may hold: 4 for the domain, 2 for bus and device, 1 for the function. */
  function Width(k: nat): nat {
    if k == 0 then 4 else if k < 3 then 2 else 1
  }

  /** The separator that ends field k (k < 3). */
  function SeparatorAfter(k: nat): char {
    if k < 2 then ':' else '.'
  }

  /** The fields after one more character: a separator opens a new, empty field. */
  function Extend(fs: seq<string>, c: char): (fs': seq<string>)
    requires |fs| >= 1
    ensures |fs'| >= 1
  {
    if IsSeparator(c) then fs + [""] else fs[|fs| - 1 := fs[|fs| - 1] + [c]]
  }

  /** The first n characters of `s` cut at every separator. */
  function FieldsOf(s: string, n: nat): (fs: seq<string>)
    requires n <= |s|
    ensures |fs| >= 1
  {
    if n == 0 then [""] else Extend(FieldsOf(s, n - 1), s[n - 1])
  }

  /** The separators after one more character. */
  function NextSeparators(seps: seq<char>, c: char): seq<char> {
    if IsSeparator(c) then seps + [c] else seps
  }

  /** The separator characters among the first n characters of `s`, in order. */
  function SeparatorsOf(s: string, n: nat): seq<char>
    requires n <= |s|
  {
    if n == 0 then [] else NextSeparators(SeparatorsOf(s, n - 1), s[n - 1])
  }

  predicate IsHexString(f: string) {
    forall i :: 0 <= i < |f| ==> IsHexDigit(f[i])
  }

  /**
   * Fields `fs` separated by `seps` form an address prefix: at most four
   * fields, one more than separators, each of hex digits and within its
   * width, every field but the last nonempty, and the separators in the
   * order ':', ':', '.'.
   */
  predicate WellFormedFields(fs: seq<string>, seps: seq<char>) {
    && |fs| == |seps| + 1 <= 4
    && seps <= [':', ':', '.']
    && forall k :: 0 <= k < |fs| ==>
         IsHexString(fs[k]) && |fs[k]| <= Width(k) && (k < |fs| - 1 ==> |fs[k]| >= 1)
  }

  /** The first n characters of `s` are a prefix the scanner consumes. */
  predicate WellFormedPrefix(s: string, n: nat)
    requires n <= |s|
  {
    WellFormedFields(FieldsOf(s, n), SeparatorsOf(s, n))
  }

  /** The characters the scanner accepts after a well-formed prefix in field d holding p digits. */
  predicate Accepts(c: char, d: nat, p: nat) {
    || (IsHexDigit(c) && p < Width(d))
    || (IsSeparator(c) && d < 3 && c == SeparatorAfter(d) && p >= 1)
  }

  function Pow16(n: nat): nat {
    if n == 0 then 1 else 16 * Pow16(n - 1)
  }

  /** The number a string of hex digits denotes, most significant digit first. */
  function HexValue(f: string): (v: nat)
    requires IsHexString(f)
    ensures v < Pow16(|f|)
    decreases |f|
  {
    if f == [] then 0 else HexValue(f[..|f| - 1]) * 16 + DigitValue(f[|f| - 1])
  }

  /** Field k's value, or the array cell's prior content when field k has no digit. */
  function FieldValue(fs: seq<string>, k: nat, prior: nat): nat
    requires forall j :: 0 <= j < |fs| ==> IsHexString(fs[j])
  {
    if k < |fs| && |fs[k]| > 0 then HexValue(fs[k]) else prior
  }

  /** The four cells of `data[4]` when the fields read so far are `fs`. */
  function ValuesOf(fs: seq<string>, prior: seq<nat>): seq<nat>
    requires (forall j :: 0 <= j < |fs| ==> IsHexString(fs[j])) && |prior| == 4
  {
    [FieldValue(fs, 0, prior[0]), FieldValue(fs, 1, prior[1]),
     FieldValue(fs, 2, prior[2]), FieldValue(fs, 3, prior[3])]
  }

  /** The four cells of `data[4]` after scanning the first n characters of `s`, starting from `prior`. */
  function FieldValues(s: string, n: nat, prior: seq<nat>): seq<nat>
    requires n <= |s| && WellFormedPrefix(s, n) && |prior| == 4
  {
    ValuesOf(FieldsOf(s, n), prior)
  }

  /** A separator is accepted exactly when it is the next one due and ends a nonempty field. */
  lemma SeparatorStep(fs: seq<string>, seps: seq<char>, c: char)
    requires WellFormedFields(fs, seps) && IsSeparator(c)
    ensures WellFormedFields(fs + [""], seps + [c]) <==>
            Accepts(c, |fs| - 1, |fs[|fs| - 1]|)
  {
    var d := |fs| - 1;
    if !Accepts(c, d, |fs[d]|) && d < 3 && c != SeparatorAfter(d) {
      assert (seps + [c])[d] != SeparatorAfter(d);
    }
  }

  /** A digit is accepted exactly when it is a hex digit and its field has room. */
  lemma DigitStep(fs: seq<string>, seps: seq<char>, c: char)
    requires WellFormedFields(fs, seps) && !IsSeparator(c)
    ensures WellFormedFields(fs[|fs| - 1 := fs[|fs| - 1] + [c]], seps) <==>
            Accepts(c, |fs| - 1, |fs[|fs| - 1]|)
  {
    var d := |fs| - 1;
    var fs' := fs[d := fs[d] + [c]];
    assert fs'[d] == fs[d] + [c];
    if Accepts(c, d, |fs[d]|) {
      assert forall k :: 0 <= k < d ==> fs'[k] == fs[k];
    } else if !IsHexDigit(c) {
      assert !IsHexDigit(fs'[d][|fs[d]|]);
    }
  }

  /**
   * One scanner step: a well-formed prefix stays well-formed after the next
   * character exactly when it is a character the scanner accepts there.
   */
  lemma WellFormedStep(s: string, n: nat)
    requires n < |s| && WellFormedPrefix(s, n)
    ensures var fs := FieldsOf(s, n);
            WellFormedPrefix(s, n + 1) <==> Accepts(s[n], |fs| - 1, |fs[|fs| - 1]|)
  {
    if IsSeparator(s[n]) {
      SeparatorStep(FieldsOf(s, n), SeparatorsOf(s, n), s[n]);
    } else {
      DigitStep(FieldsOf(s, n), SeparatorsOf(s, n), s[n]);
    }
  }

  /** Dropping the last character of a well-formed prefix leaves one. */
  lemma WellFormedInit(s: string, n: nat)
    requires n < |s| && WellFormedPrefix(s, n + 1)
    ensures WellFormedPrefix(s, n)
  {
    var fs, fs' := FieldsOf(s, n), FieldsOf(s, n + 1);
    var d := |fs| - 1;
    if !IsSeparator(s[n]) {
      assert forall k :: 0 <= k < d ==> fs[k] == fs'[k];
      assert fs'[d] == fs[d] + [s[n]];
      assert forall i :: 0 <= i < |fs[d]| ==> fs[d][i] == fs'[d][i];
    } else {
      assert forall k :: 0 <= k < |fs| ==> fs[k] == fs'[k];
    }
  }

  /** Well-formedness is prefix-closed. */
  lemma {:induction false} WellFormedPrefixClosed(s: string, n: nat, j: nat)
    requires n <= |s| && WellFormedPrefix(s, n) && j <= n
    ensures WellFormedPrefix(s, j)
    decreases n
  {
    if j < n {
      WellFormedInit(s, n - 1);
      WellFormedPrefixClosed(s, n - 1, j);
    }
  }

  /** The largest m <= n with P(m). */
  function Largest(P: nat -> bool, n: nat): (m: nat)
    requires P(0)
    ensures m <= n && P(m)
    ensures forall i :: m < i <= n ==> !P(i)
  {
    if n == 0 || P(n) then n else Largest(P, n - 1)
  }

  /** Where the scanner stops: the length of the longest well-formed prefix of `s`. */
  function AcceptedLength(s: string): (n: nat)
    ensures n <= |s| && WellFormedPrefix(s, n)
    ensures forall i :: n < i <= |s| ==> !WellFormedPrefix(s, i)
  {
    var P := (i: nat) => i <= |s| && WellFormedPrefix(s, i);
    var n := Largest(P, |s|);
    assert forall i :: n < i <= |s| ==> !WellFormedPrefix(s, i) by {
      forall i | n < i <= |s| ensures !WellFormedPrefix(s, i) {
        assert !P(i);
      }
    }
    n
  }

  /**
   * A well-formed prefix that cannot be extended by one character is the
   * longest: the scanner stops at the first character it refuses.
   */
  lemma MaximalIsAccepted(s: string, j: nat)
    requires j <= |s| && WellFormedPrefix(s, j)
    requires j < |s| ==> !WellFormedPrefix(s, j + 1)
    ensures AcceptedLength(s) == j
  {
    var m := AcceptedLength(s);
    assert m <= j by {
      if m > j {
        WellFormedPrefixClosed(s, m, j + 1);
      }
    }
  }

  /** `x << 4` on a 32-bit unsigned value. */
  function ShiftLeft4(x: nat): nat {
    (x * 16) % 0x1_0000_0000
  }

  lemma ShiftNoWrap(x: nat)
    requires x < 4096
    ensures ShiftLeft4(x) == x * 16
  {
  }

  /**
   * The separator test of the scanning loop, as the source writes it: the
   * right separator for the field, after a field holding an allowed number
   * of digits.
   */
  predicate SeparatorTest(c: char, d: nat, p: nat) {
    && ((c == ':' && d < 2) || (c == '.' && d == 2))
    && (p == 1 || (d < 3 && p == 2) || (d == 0 && (p == 3 || p == 4)))
    && d < 3
  }

  /** The width test of the scanning loop, as the source writes it: the current field is full. */
  predicate WidthTest(d: nat, p: nat) {
    (d == 0 && p == 4) || (d > 0 && p == 2) || (d == 3 && p == 1) || d == 4
  }

  /**
   * Read in a well-formed state (field d of p digits), the separator test is
   * acceptance of a separator, and the width test says the field is full.
   */
  lemma ScannerTests(c: char, d: nat, p: nat)
    requires d <= 3 && p <= Width(d)
    ensures IsSeparator(c) && !IsHexDigit(c) ==> (SeparatorTest(c, d, p) <==> Accepts(c, d, p))
    ensures !IsSeparator(c) && !IsHexDigit(c) ==> !SeparatorTest(c, d, p) && !Accepts(c, d, p)
    ensures IsHexDigit(c) ==> (WidthTest(d, p) <==> !Accepts(c, d, p))
  {
  }

  lemma {:induction false} Pow16Monotone(m: nat, n: nat)
    requires m <= n
    ensures Pow16(m) <= Pow16(n)
    decreases n
  {
    if m < n {
      Pow16Monotone(m, n - 1);
    }
  }

  /** Appending a digit to a field of at most three digits: `(v << 4) + digit`, with no wrap-around. */
  lemma AppendDigit(f: string, c: char)
    requires IsHexString(f) && IsHexDigit(c) && |f| <= 3
    ensures IsHexString(f + [c])
    ensures HexValue(f + [c]) == (if |f| != 0 then ShiftLeft4(HexValue(f)) else 0) + DigitValue(c)
  {
    assert (f + [c])[..|f|] == f;
    Pow16Monotone(|f|, 3);
    ShiftNoWrap(HexValue(f));
  }

  /** Changing only the last field, to a nonempty one, changes only that field's cell. */
  lemma ValuesUpdate(fs: seq<string>, fs': seq<string>, prior: seq<nat>, value: nat)
    requires 1 <= |fs| == |fs'| <= 4 && |prior| == 4
    requires forall j :: 0 <= j < |fs| ==> IsHexString(fs[j]) && IsHexString(fs'[j])
    requires forall k :: 0 <= k < |fs| - 1 ==> fs'[k] == fs[k]
    requires |fs'[|fs| - 1]| > 0 && HexValue(fs'[|fs| - 1]) == value
    ensures ValuesOf(fs', prior) == ValuesOf(fs, prior)[|fs| - 1 := value]
  {
    var d := |fs| - 1;
    var before, after := ValuesOf(fs, prior), ValuesOf(fs', prior);
    forall k | 0 <= k < 4 ensures after[k] == before[d := value][k] {
      if k < d {
        assert fs'[k] == fs[k];
      }
    }
  }

  /** Appending a digit to the last field of `fs` appends it to that field's value. */
  lemma DigitValues(fs: seq<string>, seps: seq<char>, c: char, prior: seq<nat>)
    requires WellFormedFields(fs, seps) && |prior| == 4 && IsHexDigit(c) && !IsSeparator(c)
    requires |fs[|fs| - 1]| < Width(|fs| - 1)
    ensures var d, fs' := |fs| - 1, Extend(fs, c);
      && WellFormedFields(fs', seps)
      && |fs'| == d + 1 && |fs'[d]| == |fs[d]| + 1
      && ValuesOf(fs', prior) ==
         ValuesOf(fs, prior)[d := (if |fs[d]| != 0 then ShiftLeft4(ValuesOf(fs, prior)[d]) else 0) + DigitValue(c)]
  {
    var d := |fs| - 1;
    var f := fs[d];
    var fs' := fs[d := f + [c]];
    assert Extend(fs, c) == fs';
    assert |fs'| == |fs| && fs'[d] == f + [c];
    assert WellFormedFields(fs', seps) by {
      DigitStep(fs, seps, c);
    }
    var value := (if |f| != 0 then ShiftLeft4(HexValue(f)) else 0) + DigitValue(c);
    assert HexValue(f + [c]) == value by {
      AppendDigit(f, c);
    }
    assert forall k :: 0 <= k < d ==> fs'[k] == fs[k];
    assert |f| != 0 ==> ValuesOf(fs, prior)[d] == HexValue(f);
    ValuesUpdate(fs, fs', prior, value);
  }

  /** Opening a new field leaves every cell as it was. */
  lemma SeparatorValues(fs: seq<string>, prior: seq<nat>)
    requires 1 <= |fs| <= 3 && |prior| == 4
    requires forall j :: 0 <= j < |fs| ==> IsHexString(fs[j])
    ensures forall j :: 0 <= j < |fs| + 1 ==> IsHexString((fs + [""])[j])
    ensures ValuesOf(fs + [""], prior) == ValuesOf(fs, prior)
  {
    assert forall k :: 0 <= k < |fs| ==> (fs + [""])[k] == fs[k];
  }

  /** Every field that got a digit fits its width. */
  lemma FieldBounds(fs: seq<string>, seps: seq<char>, prior: seq<nat>)
    requires WellFormedFields(fs, seps) && |prior| == 4
    ensures var d := |fs| - 1; var p := |fs[d]|;
      var data := ValuesOf(fs, prior);
      && (d > 0 || p > 0 ==> data[0] < 0x1_0000)
      && (d > 1 || (d == 1 && p > 0) ==> data[1] < 0x100)
      && (d > 2 || (d == 2 && p > 0) ==> data[2] < 0x100)
      && (d == 3 && p > 0 ==> data[3] < 0x10)
  {
    var data := ValuesOf(fs, prior);
    forall k | 0 <= k < |fs| && |fs[k]| > 0 ensures data[k] < Pow16(Width(k)) {
      Pow16Monotone(|fs[k]|, Width(k));
      assert data[k] == HexValue(fs[k]);
    }
    assert Pow16(1) == 16 && Pow16(2) == 256 && Pow16(4) == 0x1_0000;
  }

  /**
   * The body of the scanning loop for the next character `c`, with the
   * fields `fs` and separators `seps` read so far: a hex digit is appended
   * to field d (`data[d] = (p ? data[d] << 4 : 0) + digit`), an allowed
   * separator moves to the next field, and anything else stops the scan
   * (`accepted` false, nothing changed).
   */
  method ScanChar(cells: array<nat>, c: char, ghost fs: seq<string>, ghost seps: seq<char>,
                  ghost prior: seq<nat>, d: nat, p: nat)
    returns (accepted: bool, d': nat, p': nat)
    requires cells.Length == 4 && |prior| == 4
    requires WellFormedFields(fs, seps) && d == |fs| - 1 && p == |fs[d]|
    requires cells[..] == ValuesOf(fs, prior)
    modifies cells
    ensures accepted == WellFormedFields(Extend(fs, c), NextSeparators(seps, c))
    ensures accepted == Accepts(c, d, p)
    ensures accepted ==> d' == |Extend(fs, c)| - 1 && p' == |Extend(fs, c)[d']|
    ensures !accepted ==> d' == d && p' == p
    ensures cells[..] == if accepted then ValuesOf(Extend(fs, c), prior) else old(cells[..])
  {
    var digit: nat;
    if IsHexDigit(c) {
      digit := DigitValue(c);
    } else {
      if SeparatorTest(c, d, p) {
        assert Accepts(c, d, p) by {
          ScannerTests(c, d, p);
        }
        SeparatorStep(fs, seps, c);
        SeparatorValues(fs, prior);
        return true, d + 1, 0;
      } else {
        assert !Accepts(c, d, p) by {
          ScannerTests(c, d, p);
        }
        if IsSeparator(c) {
          SeparatorStep(fs, seps, c);
        } else {
          DigitStep(fs, seps, c);
        }
        return false, d, p;
      }
    }
    if WidthTest(d, p) {
      assert !Accepts(c, d, p) by {
        ScannerTests(c, d, p);
      }
      DigitStep(fs, seps, c);
      return false, d, p;
    }
    assert Accepts(c, d, p) by {
      ScannerTests(c, d, p);
    }
    DigitStep(fs, seps, c);
    DigitValues(fs, seps, c, prior);
    var shifted: nat := if p != 0 then ShiftLeft4(cells[d]) else 0;
    cells[d] := shifted + digit;
    accepted, d', p' := true, d, p + 1;
  }

  /**
   * The scanning loop of `DPDKDeviceArg::parse`. `prior` is what the
   * uninitialized `data[4]` holds before the loop. Returns where the scan
   * stopped (`s == end` is `stop == |s|`), the field index `d`, the digit
   * count `p` of the current field and the four cells of `data`.
   */
  method ScanPciAddress(s: string, prior: seq<nat>) returns (stop: nat, d: nat, p: nat, data: seq<nat>)
    requires |prior| == 4
    ensures stop == AcceptedLength(s)
    ensures d == |FieldsOf(s, stop)| - 1 && p == |FieldsOf(s, stop)[d]|
    ensures data == FieldValues(s, stop, prior)
  {
    var cells := new nat[4];
    cells[0], cells[1], cells[2], cells[3] := prior[0], prior[1], prior[2], prior[3];
    d, p, stop := 0, 0, 0;
    ghost var fs: seq<string>, seps: seq<char> := [""], [];
    while stop < |s|
      invariant stop <= |s|
      invariant fs == FieldsOf(s, stop) && seps == SeparatorsOf(s, stop)
      invariant WellFormedFields(fs, seps)
      invariant d == |fs| - 1 && p == |fs[d]|
      invariant cells[..] == ValuesOf(fs, prior)
    {
      var accepted;
      accepted, d, p := ScanChar(cells, s[stop], fs, seps, prior, d, p);
      if !accepted {
        break;
      }
      fs, seps := Extend(fs, s[stop]), NextSeparators(seps, s[stop]);
      stop := stop + 1;
    }
    MaximalIsAccepted(s, stop);
    data := cells[..];
  }

  /**
   * Where the scan stops, the field index and digit count are within the
   * address format, and every field that got a digit fits its width.
   */
  lemma ScannedBounds(s: string, prior: seq<nat>)
    requires |prior| == 4
    ensures var fs := FieldsOf(s, AcceptedLength(s)); var d := |fs| - 1; var p := |fs[d]|;
      var data := FieldValues(s, AcceptedLength(s), prior);
      && d <= 3 && p <= Width(d)
      && (d > 0 || p > 0 ==> data[0] < 0x1_0000)
      && (d > 1 || (d == 1 && p > 0) ==> data[1] < 0x100)
      && (d > 2 || (d == 2 && p > 0) ==> data[2] < 0x100)
      && (d == 3 && p > 0 ==> data[3] < 0x10)
  {
    var n := AcceptedLength(s);
    FieldBounds(FieldsOf(s, n), SeparatorsOf(s, n), prior);
  }

  /** The lower-case hex digit of a value below 16. */
  function HexDigit(v: nat): (c: char)
    requires v < 16
    ensures IsHexDigit(c) && DigitValue(c) == v
  {
    if v < 10 then ('0' as int + v) as char else ('a' as int + v - 10) as char
  }

  /** `x` written with exactly n hex digits, most significant first (zero padded). */
  function ToHex(x: nat, n: nat): (f: string)
    ensures |f| == n && IsHexString(f)
  {
    if n == 0 then "" else ToHex(x / 16, n - 1) + [HexDigit(x % 16)]
  }

  /** Reading back a value written with enough hex digits gives the value. */
  lemma {:induction false} HexRoundTrip(x: nat, n: nat)
    requires x < Pow16(n)
    ensures HexValue(ToHex(x, n)) == x
  {
    if n > 0 {
      var f := ToHex(x / 16, n - 1);
      assert (f + [HexDigit(x % 16)])[..|f|] == f;
      HexRoundTrip(x / 16, n - 1);
    }
  }

  /** Characters without a separator all go to the last field. */
  lemma {:induction false} FieldsAppendDigits(s: string, n: nat, m: nat)
    requires n <= m <= |s|
    requires forall i :: n <= i < m ==> !IsSeparator(s[i])
    ensures var fs := FieldsOf(s, n); var k := |fs| - 1;
      FieldsOf(s, m) == fs[k := fs[k] + s[n..m]] && SeparatorsOf(s, m) == SeparatorsOf(s, n)
    decreases m
  {
    var fs := FieldsOf(s, n);
    var k := |fs| - 1;
    if m == n {
      assert s[n..m] == [] && fs[k] + [] == fs[k];
      assert fs[k := fs[k]] == fs;
    } else {
      FieldsAppendDigits(s, n, m - 1);
      var gs := fs[k := fs[k] + s[n..m - 1]];
      assert |gs| == |fs| && gs[k] == fs[k] + s[n..m - 1];
      assert s[n..m] == s[n..m - 1] + [s[m - 1]];
      assert fs[k] + s[n..m - 1] + [s[m - 1]] == fs[k] + s[n..m];
    }
  }

  /** Hex digits after a separator fill the new, empty field. */
  lemma NextField(s: string, n: nat, m: nat, fs: seq<string>)
    requires n <= m <= |s| && FieldsOf(s, n) == fs + [""] && IsHexString(s[n..m])
    ensures FieldsOf(s, m) == fs + [s[n..m]] && SeparatorsOf(s, m) == SeparatorsOf(s, n)
  {
    forall i | n <= i < m ensures !IsSeparator(s[i]) {
      assert s[i] == s[n..m][i - n];
    }
    FieldsAppendDigits(s, n, m);
    assert (fs + [""])[..|fs|] == fs && "" + s[n..m] == s[n..m];
  }

  /** A separator followed by hex digits closes the fields so far and fills a new one. */
  lemma SeparatorThenField(s: string, n: nat, m: nat, fs: seq<string>)
    requires n < m <= |s| && FieldsOf(s, n) == fs && IsSeparator(s[n]) && IsHexString(s[n + 1..m])
    ensures FieldsOf(s, m) == fs + [s[n + 1..m]] && SeparatorsOf(s, m) == SeparatorsOf(s, n) + [s[n]]
  {
    assert FieldsOf(s, n + 1) == fs + [""];
    NextField(s, n + 1, m, fs);
  }

  /** FieldsOf and SeparatorsOf look only at the first n characters. */
  lemma {:induction false} SamePrefixSameFields(s: string, t: string, n: nat)
    requires n <= |s| && n <= |t| && s[..n] == t[..n]
    ensures FieldsOf(s, n) == FieldsOf(t, n) && SeparatorsOf(s, n) == SeparatorsOf(t, n)
    decreases n
  {
    if n > 0 {
      assert s[n - 1] == s[..n][n - 1] == t[n - 1];
      assert s[..n - 1] == s[..n][..n - 1] == t[..n - 1];
      SamePrefixSameFields(s, t, n - 1);
    }
  }

  /** A string of hex digits is one field and has no separator. */
  lemma SingleField(f: string)
    requires IsHexString(f)
    ensures FieldsOf(f, |f|) == [f] && SeparatorsOf(f, |f|) == []
  {
    assert f[0..|f|] == f;
    assert FieldsOf(f, 0) == [] + [""];
    NextField(f, 0, |f|, []);
  }

  /** Appending a separator and a string of hex digits appends one field. */
  lemma AppendField(s: string, c: char, f: string)
    requires IsSeparator(c) && IsHexString(f)
    ensures var t := s + [c] + f;
      && FieldsOf(t, |t|) == FieldsOf(s, |s|) + [f]
      && SeparatorsOf(t, |t|) == SeparatorsOf(s, |s|) + [c]
  {
    var t := s + [c] + f;
    assert t[..|s|] == s[..|s|];
    SamePrefixSameFields(s, t, |s|);
    assert t[|s|] == c && t[|s| + 1..|t|] == f;
    SeparatorThenField(t, |s|, |t|, FieldsOf(s, |s|));
  }

  /** Four hex fields joined by ':', ':' and '.' are read back as those fields. */
  lemma JoinFields(a: string, b: string, c: string, e: string)
    requires IsHexString(a) && IsHexString(b) && IsHexString(c) && IsHexString(e)
    ensures var s := a + [':'] + b + [':'] + c + ['.'] + e;
      FieldsOf(s, |s|) == [a, b, c, e] && SeparatorsOf(s, |s|) == [':', ':', '.']
  {
    var s2 := a + [':'] + b;
    var s3 := s2 + [':'] + c;
    assert FieldsOf(s2, |s2|) == [a, b] && SeparatorsOf(s2, |s2|) == [':'] by {
      SingleField(a);
      AppendField(a, ':', b);
    }
    assert FieldsOf(s3, |s3|) == [a, b, c] && SeparatorsOf(s3, |s3|) == [':', ':'] by {
      AppendField(s2, ':', c);
    }
    AppendField(s3, '.', e);
  }

  /** `dddd:bb:dd.f` for a domain, bus, device and function, each zero padded to its width. */
  function FormatAddress(domain: nat, bus: nat, device: nat, func: nat): string {
    ToHex(domain, 4) + [':'] + ToHex(bus, 2) + [':'] + ToHex(device, 2) + ['.'] + ToHex(func, 1)
  }

  /**
   * A formatted address in range is scanned to the end as four complete
   * fields, and the scanned values are the address's own: the scanner
   * inverts FormatAddress.
   */
  lemma FormatScanRoundTrip(domain: nat, bus: nat, device: nat, func: nat, prior: seq<nat>)
    requires domain < 0x1_0000 && bus < 0x100 && device < 0x100 && func < 0x10
    requires |prior| == 4
    ensures var s := FormatAddress(domain, bus, device, func);
      && WellFormedPrefix(s, |s|) && AcceptedLength(s) == |s|
      && |FieldsOf(s, |s|)| == 4 && |FieldsOf(s, |s|)[3]| == 1
      && FieldValues(s, |s|, prior) == [domain, bus, device, func]
  {
    var s := FormatAddress(domain, bus, device, func);
    JoinFields(ToHex(domain, 4), ToHex(bus, 2), ToHex(device, 2), ToHex(func, 1));
    var fs := FieldsOf(s, |s|);
    assert forall k :: 0 <= k < 4 ==> |fs[k]| == Width(k);
    assert WellFormedPrefix(s, |s|);
    assert Pow16(1) == 16 && Pow16(2) == 256 && Pow16(4) == 0x1_0000;
    HexRoundTrip(domain, 4);
    HexRoundTrip(bus, 2);
    HexRoundTrip(device, 2);
    HexRoundTrip(func, 1);
  }
}
