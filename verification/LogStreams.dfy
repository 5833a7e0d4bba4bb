/**
glacier/base/logstream.h and logstream.cc: the fixed-size log buffer, and the in-place
formatting of integers and pointers into it.
*/
module LogStreams {
  import opened CInt

  // ---------- decimal and hexadecimal text ----------

  const DIGITS := "9876543210123456789"     // `zero` points at index 9
  const DIGITS_HEX := "0123456789ABCDEF"

  datatype Radix = Dec | Hex {
    function Base(): int {
      if Dec? then 10 else 16
    }

    function Shift(i: int): int {
      if Dec? then 10 * i else 16 * i
    }

    /** The character the code picks for a remainder, which is negative when the dividend is. */
    function Digit(lsd: int): char
      requires if Dec? then -9 <= lsd <= 9 else 0 <= lsd <= 15
    {
      if Dec? then DIGITS[9 + lsd] else DIGITS_HEX[lsd]
    }

    /** The number a character stands for, none when it is not a digit. */
    function ValueOf(c: char): int {
      if '0' <= c <= '9' then c as int - '0' as int
      else if Hex? && 'A' <= c <= 'F' then c as int - 'A' as int + 10
      else -1
    }
  }

  predicate Fits(r: Radix, value: int) {
    if r.Dec? then -0x8000_0000_0000_0000 <= value <= 0xFFFF_FFFF_FFFF_FFFF
    else 0 <= value <= 0xFFFF_FFFF_FFFF_FFFF
  }

  predicate Divisible(r: Radix, i: int) {
    r.Dec? || i >= 0
  }

  /** The digits of `i`, most significant first, none for zero. */
  function DigitsOf(r: Radix, i: int): string
    requires Divisible(r, i)
    decreases if i < 0 then -i else i
  {
    if i == 0 then ""
    else DigitsOf(r, Quot(i, r.Base())) + [r.Digit(Rem(i, r.Base()))]
  }

  /** The text convert and convertHex leave in the buffer. */
  function Format(r: Radix, value: int): string
    requires Divisible(r, value)
  {
    (if value < 0 then "-" else "") + (if value == 0 then "0" else DigitsOf(r, value))
  }

  // ---------- reading the text back ----------

  predicate AllDigits(r: Radix, s: string) {
    forall k :: 0 <= k < |s| ==> r.ValueOf(s[k]) >= 0
  }

  /** The number a string of digits denotes. */
  function Magnitude(r: Radix, s: string): int {
    if s == "" then 0 else r.Shift(Magnitude(r, s[..|s| - 1])) + r.ValueOf(s[|s| - 1])
  }

  /** A numeral without leading zeros, and without a sign in front of zero. */
  predicate Canonical(r: Radix, s: string) {
    if s == "0" then true
    else
      var d := if r.Dec? && s != "" && s[0] == '-' then s[1..] else s;
      d != "" && d[0] != '0' && AllDigits(r, d)
  }

  function Parse(r: Radix, s: string): int {
    if s != "" && s[0] == '-' then -Magnitude(r, s[1..]) else Magnitude(r, s)
  }

  function Abs(i: int): int {
    if i < 0 then -i else i
  }

  /** The symmetric table gives a remainder and its negation the same digit. */
  lemma DigitIsRead(r: Radix, lsd: int)
    requires if r.Dec? then -9 <= lsd <= 9 else 0 <= lsd <= 15
    ensures r.ValueOf(r.Digit(lsd)) == Abs(lsd) && (r.Digit(lsd) == '0' <==> lsd == 0)
  {
  }

  lemma DigitIsWritten(r: Radix, c: char)
    requires r.ValueOf(c) >= 0
    ensures r.ValueOf(c) < r.Base() && r.Digit(r.ValueOf(c)) == c && (r.Dec? ==> r.Digit(-r.ValueOf(c)) == c)
    ensures r.ValueOf(c) == 0 <==> c == '0'
  {
  }

  lemma DivisionStep(r: Radix, i: int)
    requires Divisible(r, i)
    ensures var q, m := Quot(i, r.Base()), Rem(i, r.Base());
            Divisible(r, q) && Abs(i) == r.Shift(Abs(q)) + Abs(m) && Abs(m) < r.Base()
            && (i >= 0 ==> q >= 0 && m >= 0) && (i <= 0 ==> q <= 0 && m <= 0)
            && (i != 0 ==> Abs(q) < Abs(i)) && (q == 0 ==> m == i) && (if r.Dec? then -9 <= m <= 9 else 0 <= m <= 15)
  {
  }

  lemma {:induction false} DigitsRead(r: Radix, i: int)
    requires Divisible(r, i)
    ensures AllDigits(r, DigitsOf(r, i)) && Magnitude(r, DigitsOf(r, i)) == Abs(i)
    ensures i != 0 ==> DigitsOf(r, i) != "" && DigitsOf(r, i)[0] != '0'
    decreases Abs(i)
  {
    hide Radix.Digit, Radix.ValueOf, Radix.Base, Radix.Shift, Quot, Rem;
    if i != 0 {
      DivisionStep(r, i);
      var q, m := Quot(i, r.Base()), Rem(i, r.Base());
      DigitsRead(r, q);
      DigitIsRead(r, m);
      var s := DigitsOf(r, i);
      assert s[..|s| - 1] == DigitsOf(r, q);
      assert s[0] == if q != 0 then DigitsOf(r, q)[0] else r.Digit(m);
    }
  }

  /** Parsing undoes formatting for every value, the least signed one included, and the text is canonical. */
  lemma ParseOfFormat(r: Radix, value: int)
    requires Divisible(r, value)
    ensures Parse(r, Format(r, value)) == value && Canonical(r, Format(r, value))
  {
    hide Radix.Digit, Quot, Rem, DigitsOf;
    DigitsRead(r, value);
    var s := Format(r, value);
    if value < 0 { assert s[1..] == DigitsOf(r, value); }
    if value > 0 { assert s == DigitsOf(r, value) && r.ValueOf(s[0]) >= 0; }
    if value == 0 { assert s == "0" && s[..0] == ""; assert Magnitude(r, s[..0]) == 0; }
  }

  /** One digit more at the end of a numeral. */
  lemma MagnitudeSnoc(r: Radix, init: string, c: char)
    ensures Magnitude(r, init + [c]) == r.Shift(Magnitude(r, init)) + r.ValueOf(c)
  {
    assert (init + [c])[..|init|] == init;
  }

  /** The digit a division cuts off the value of a longer numeral is its last. */
  lemma LastDigit(r: Radix, q: int, c: char, negative: bool)
    requires q >= 0 && r.ValueOf(c) >= 0 && (q == 0 ==> c != '0') && (negative ==> r.Dec?)
    ensures var m := r.Shift(q) + r.ValueOf(c);
            m > 0 && DigitsOf(r, if negative then -m else m) == DigitsOf(r, if negative then -q else q) + [c]
  {
    hide Radix.Digit, Radix.ValueOf, Radix.Base, Radix.Shift, Quot, Rem;
    DigitIsWritten(r, c);
    QuotRem(r, q, r.ValueOf(c));
    var m := r.Shift(q) + r.ValueOf(c);
    DivisionStep(r, if negative then -m else m);
  }

  lemma {:induction false} DigitsOfMagnitude(r: Radix, d: string, negative: bool)
    requires AllDigits(r, d) && (d != "" ==> d[0] != '0') && (negative ==> r.Dec?)
    ensures var m := Magnitude(r, d);
            m >= 0 && (d != "" ==> m > 0) && DigitsOf(r, if negative then -m else m) == d
  {
    hide Radix.Digit, Radix.ValueOf, Radix.Base, Radix.Shift, DigitsOf, Magnitude;
    if d == "" {
      NothingReads(r);
    } else {
      var n := |d| - 1;
      var init := d[..n];
      if n > 0 { assert init[0] == d[0]; }
      DigitsOfMagnitude(r, init, negative);
      assert d == init + [d[n]];
      MagnitudeSnoc(r, init, d[n]);
      LastDigit(r, Magnitude(r, init), d[n], negative);
    }
  }

  lemma NothingReads(r: Radix)
    ensures Magnitude(r, "") == 0 && DigitsOf(r, 0) == ""
  {
  }

  lemma QuotRem(r: Radix, q: int, k: int)
    requires q >= 0 && 0 <= k < r.Base()
    ensures var m := r.Shift(q) + k;
            Quot(m, r.Base()) == q && Rem(m, r.Base()) == k
            && Quot(-m, r.Base()) == -q && Rem(-m, r.Base()) == -k
            && m >= q + k
  {
    if r.Dec? { assert (10 * q + k) / 10 == q; } else { assert (16 * q + k) / 16 == q; }
  }

  /** Formatting undoes parsing on every canonical numeral, so the text of a value is its only canonical one. */
  lemma FormatOfParse(r: Radix, s: string)
    requires Canonical(r, s)
    ensures Divisible(r, Parse(r, s)) && Format(r, Parse(r, s)) == s
  {
    hide Radix.Digit, Radix.Base, Quot, Rem, DigitsOf;
    if s == "0" {
      assert s[..0] == "" && Magnitude(r, s) == r.Shift(Magnitude(r, ""));
    } else if r.Dec? && s[0] == '-' {
      DigitsOfMagnitude(r, s[1..], true);
      assert s == "-" + s[1..];
    } else {
      assert r.ValueOf(s[0]) >= 0;
      DigitsOfMagnitude(r, s, false);
    }
  }

  function Pow(base: int, k: nat): int {
    if k == 0 then 1 else base * Pow(base, k - 1)
  }

  lemma {:induction false} DigitCount(r: Radix, i: int, k: nat)
    requires Divisible(r, i) && Abs(i) < Pow(r.Base(), k)
    ensures |DigitsOf(r, i)| <= k
    decreases k
  {
    if i != 0 {
      DivisionStep(r, i);
      if k > 0 { DigitCount(r, Quot(i, r.Base()), k - 1); }
    }
  }

  lemma Powers()
    ensures Pow(10, 19) == 10_000_000_000_000_000_000 && Pow(10, 20) == 100_000_000_000_000_000_000
    ensures Pow(16, 16) == 0x1_0000_0000_0000_0000
  {
    assert Pow(10, 5) == 100_000;
    assert Pow(10, 10) == 10_000_000_000;
    assert Pow(10, 15) == 1_000_000_000_000_000;
    assert Pow(16, 4) == 0x1_0000;
    assert Pow(16, 8) == 0x1_0000_0000;
    assert Pow(16, 12) == 0x1_0000_0000_0000;
  }

  /** Never more than 20 characters, so with the terminator at most 21 bytes; a pointer takes at most 16 digits. */
  lemma FormatLength(r: Radix, value: int)
    requires Fits(r, value)
    ensures 1 <= |Format(r, value)| <= (if r.Dec? then 20 else 16)
  {
    hide Radix.Digit, Quot, Rem, DigitsOf, Pow;
    Powers();
    DigitCount(r, value, if r.Hex? then 16 else if value < 0 then 19 else 20);
    DigitsRead(r, value);
  }

  // ---------- the conversion in the buffer ----------

  function Reversed(s: string): string {
    seq(|s|, k requires 0 <= k < |s| => s[|s| - 1 - k])
  }

  function Unsigned(r: Radix, value: int): string
    requires Divisible(r, value)
  {
    if value == 0 then "0" else DigitsOf(r, value)
  }

  predicate DivisionIsExact(r: Radix, i: int) {
    var m := Rem(i, r.Base());
    Divisible(r, Quot(i, r.Base())) && Abs(Quot(i, r.Base())) <= Abs(i)
    && (if r.Dec? then -9 <= m <= 9 else 0 <= m <= 15)
  }

  lemma ReversedSnoc(s: string, c: char)
    ensures Reversed(s + [c]) == [c] + Reversed(s)
  {
  }

  /** One division: the digit cut off the value goes to the end of the reversed text so far. */
  lemma UnsignedStep(r: Radix, value: int, i: int, tail: string)
    requires Divisible(r, value) && Divisible(r, i)
    requires if tail == "" then i == value else i != 0 && Unsigned(r, value) == DigitsOf(r, i) + Reversed(tail)
    ensures DivisionIsExact(r, i)
    ensures Unsigned(r, value)
         == DigitsOf(r, Quot(i, r.Base())) + Reversed(tail + [r.Digit(Rem(i, r.Base()))])
  {
    hide Reversed, Radix.Digit, Radix.Base, Radix.Shift, Quot, Rem, DigitsOf;
    DivisionStep(r, i);
    var q, c := Quot(i, r.Base()), r.Digit(Rem(i, r.Base()));
    ReversedSnoc(tail, c);
    ReversedEmpty();
    NoDigits(r);
    if i == 0 {
      ZeroDigit(r);
    } else {
      DigitsStep(r, i);
      Regroup(DigitsOf(r, q), [c], Reversed(tail));
    }
  }

  lemma DigitsStep(r: Radix, i: int)
    requires Divisible(r, i) && i != 0 && Divisible(r, Quot(i, r.Base())) && DivisionIsExact(r, i)
    ensures DigitsOf(r, i) == DigitsOf(r, Quot(i, r.Base())) + [r.Digit(Rem(i, r.Base()))]
  {
    hide Radix.Digit, Radix.Base, Quot, Rem;
  }

  lemma Regroup(a: string, b: string, c: string)
    ensures (a + b) + c == a + (b + c) && a + "" == a && "" + c == c && b + "" == b
  {
  }

  lemma ZeroDigit(r: Radix)
    ensures Quot(0, r.Base()) == 0 && Rem(0, r.Base()) == 0 && r.Digit(0) == '0'
  {
    DivisionStep(r, 0);
    DigitIsRead(r, 0);
  }

  lemma ReversedEmpty()
    ensures Reversed("") == ""
  {
  }

  /** The division loop: the digits of the value, least significant first, from `at` on. */
  method EmitDigits(r: Radix, buf: array<char>, at: nat, value: int) returns (p: nat)
    requires Fits(r, value) && at + 20 <= buf.Length
    modifies buf
    ensures at <= p <= at + 20 && Unsigned(r, value) == Reversed(buf[at..p])
    ensures forall k :: 0 <= k < at || p <= k < buf.Length ==> buf[k] == old(buf[k])
  {
    hide Quot, Rem, Radix.Digit, Radix.Base, DigitsOf;
    var i := value;
    p := at;
    var more := true;
    FormatLength(r, value);
    ReversedEmpty();
    assert DigitsOf(r, 0) == "" by { NoDigits(r); }
    while more
      invariant Divisible(r, i) && at <= p
      invariant p - at <= |Unsigned(r, value)| <= 20
      invariant if p == at then more && i == value
                else (more <==> i != 0) && Unsigned(r, value) == DigitsOf(r, i) + Reversed(buf[at..p])
      invariant forall k :: 0 <= k < at || p <= k < buf.Length ==> buf[k] == old(buf[k])
      decreases more, Abs(i)
    {
      ghost var tail := buf[at..p];
      UnsignedStep(r, value, i, tail);
      DivisionStep(r, i);
      var lsd := Rem(i, r.Base());
      i := Quot(i, r.Base());
      assert p < at + 20 by { assert |Reversed(tail + [r.Digit(lsd)])| == p - at + 1; }
      buf[p] := r.Digit(lsd);
      p := p + 1;
      assert buf[at..p] == tail + [r.Digit(lsd)];
      more := i != 0;
    }
  }

  lemma NoDigits(r: Radix)
    ensures DigitsOf(r, 0) == ""
  {
  }

  /** convert and convertHex: the digits least significant first, the sign, the terminator, then the
      characters reversed in place.  Nothing outside the text and its terminator is touched. */
  method Convert(r: Radix, buf: array<char>, at: nat, value: int) returns (len: nat)
    requires Fits(r, value) && at + 21 <= buf.Length
    modifies buf
    ensures len <= 20 && buf[at..at + len] == Format(r, value) && buf[at + len] == '\0'
    ensures forall k :: 0 <= k < at || at + len < k < buf.Length ==> buf[k] == old(buf[k])
  {
    hide Unsigned, Format, Reversed, Radix.Base;
    var p := EmitDigits(r, buf, at, value);
    FormatLength(r, value);
    ghost var digits := buf[at..p];
    FormatIs(r, value, digits);
    if value < 0 {
      buf[p] := '-';
      p := p + 1;
      assert buf[at..p] == digits + "-";
    }
    buf[p] := '\0';
    len := p - at;
    assert buf[at..at + len] == if value < 0 then digits + "-" else digits;
    Reverse(buf, at, len);
  }

  /** std::reverse on a stretch of the buffer. */
  method Reverse(buf: array<char>, at: nat, len: nat)
    requires at + len <= buf.Length
    modifies buf
    ensures buf[at..at + len] == Reversed(old(buf[at..at + len]))
    ensures forall k :: 0 <= k < at || at + len <= k < buf.Length ==> buf[k] == old(buf[k])
  {
    forall k | 0 <= k < len {
      buf[at + k] := buf[at + len - 1 - k];
    }
  }

  lemma FormatIs(r: Radix, value: int, digits: string)
    requires Divisible(r, value) && Unsigned(r, value) == Reversed(digits)
    ensures Format(r, value) == Reversed(if value < 0 then digits + "-" else digits)
    ensures |Format(r, value)| == |digits| + (if value < 0 then 1 else 0)
  {
    hide DigitsOf;
    assert |digits| == |Unsigned(r, value)|;
    ReversedSnoc(digits, '-');
  }

  // ---------- the buffers ----------

  const SMALL_BUFFER := 4000
  const LARGE_BUFFER := 4000 * 1000

  /** A string is taken whole, leaving at least one byte free, or not at all. */
  function Appended(contents: string, buf: string, size: nat): string {
    if size - |contents| > |buf| then contents + buf else contents
  }

  /** FixedBuffer<SIZE>, with `cur` the offset of cur_ in data_. */
  class FixedBuffer {
    const data: array<char>
    var cur: nat

    ghost predicate Valid()
      reads this
    {
      cur <= data.Length
    }

    ghost function Contents(): string
      requires Valid()
      reads this, data
    {
      data[..cur]
    }

    constructor (size: nat)
      ensures Valid() && Contents() == "" && data.Length == size && fresh(data)
    {
      data := new char[size];
      cur := 0;
    }

    function Avail(): int
      reads this
    {
      data.Length - cur
    }

    method Reset()
      modifies this
      ensures Valid() && Contents() == ""
    {
      cur := 0;
    }

    method Append(buf: string)
      requires Valid()
      modifies this, data
      ensures Valid()
      ensures Contents() == Appended(old(Contents()), buf, data.Length)
    {
      if Avail() > |buf| {
        forall k | 0 <= k < |buf| {
          data[cur + k] := buf[k];
        }
        cur := cur + |buf|;
        assert data[..cur] == old(data[..cur]) + buf;
      }
    }
  }

  const MAX_NUMERIC_SIZE := 32

  class LogStream {
    const buffer: FixedBuffer

    constructor ()
      ensures buffer.Valid() && buffer.Contents() == "" && buffer.data.Length == 4000
      ensures fresh(buffer) && fresh(buffer.data)
    {
      buffer := new FixedBuffer(SMALL_BUFFER);
    }

    /** formatInteger: the whole numeral, or nothing when fewer than 32 bytes are free. */
    method FormatInteger(v: int)
      requires buffer.Valid() && Fits(Dec, v)
      modifies buffer, buffer.data
      ensures buffer.Valid()
      ensures buffer.Contents()
           == old(buffer.Contents()) + (if old(buffer.Avail()) >= 32 then Format(Dec, v) else "")
    {
      hide Format;
      if buffer.Avail() >= MAX_NUMERIC_SIZE {
        var len := Convert(Dec, buffer.data, buffer.cur, v);
        var buf, at := buffer.data, buffer.cur;
        assert buf[..at + len] == buf[..at] + buf[at..at + len];
        buffer.cur := buffer.cur + len;
      }
    }

    /** The inserter of pointers: `0x` and the hexadecimal digits. */
    method InsertPointer(v: int)
      requires buffer.Valid() && Fits(Hex, v)
      modifies buffer, buffer.data
      ensures buffer.Valid()
      ensures buffer.Contents()
           == old(buffer.Contents()) + (if old(buffer.Avail()) >= 32 then "0x" + Format(Hex, v) else "")
    {
      hide Format;
      if buffer.Avail() >= MAX_NUMERIC_SIZE {
        var buf := buffer.data;
        buf[buffer.cur] := '0';
        buf[buffer.cur + 1] := 'x';
        ghost var head := buf[..buffer.cur + 2];
        assert head == old(buffer.data[..buffer.cur]) + "0x";
        var len := Convert(Hex, buf, buffer.cur + 2, v);
        assert buf[..buffer.cur + 2 + len] == buf[..buffer.cur + 2] + buf[buffer.cur + 2..buffer.cur + 2 + len];
        buffer.cur := buffer.cur + 2 + len;
      }
    }
  }
}
