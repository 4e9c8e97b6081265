/** The serial-number string that services_init (src/ic_bluetooth.c) builds for the Device
    Information Service: five numeric fields of the factory serial number are split into
    decimal digits, two CRC digits are appended, and each digit is written to a byte buffer
    as an ASCII character. */
module SerialNumber {
  import opened BleTypes

  /** unsigned int of the C code. */
  type UInt = x: int | 0 <= x < 0x1_0000_0000

  /** The fields read from the serial-number flash section. */
  datatype SerialFields = SerialFields(manufacturer: UInt, day: UInt, month: UInt, sn: UInt, year: UInt)

  /** The fields the encoding can represent: two decimal digits each, four for `sn`. The
      source indexes its digit table with each entry, so larger values read past it. */
  predicate InRange(f: SerialFields) {
    f.manufacturer < 100 && f.day < 100 && f.month < 100 && f.sn < 10000 && f.year < 100
  }

  /** Number of entries of serial_tab (and of digits in the serial string). */
  const SERIAL_LEN: nat := 14

  /** The `_digits` table. */
  const DIGITS: seq<char> := ['0', '1', '2', '3', '4', '5', '6', '7', '8', '9']

  /** Conversion of an unsigned value to uint8_t, the element type of serial_tab. */
  function U8(x: int): Byte {
    x % 0x100
  }

  /** The two entries serial_tab holds for a two-digit number: its tens, computed as
      (x - x % 10) / 10, and its units. */
  function TwoDigitEntries(x: nat): seq<Byte> {
    [U8((x - x % 10) / 10), U8(x % 10)]
  }

  /** The four entries serial_tab holds for `sn`: thousands, hundreds, tens and units, each
      computed as a difference of remainders divided by the place value. */
  function FourDigitEntries(x: nat): seq<Byte> {
    [U8((x - x % 1000) / 1000), U8((x % 1000 - x % 100) / 100), U8((x % 100 - x % 10) / 10), U8(x % 10)]
  }

  /** serial_tab as initialised: the digits of the five fields, then two zero CRC slots. */
  function DigitTable(f: SerialFields): (tab: seq<Byte>)
    ensures |tab| == SERIAL_LEN && tab[12] == 0 && tab[13] == 0
  {
    TwoDigitEntries(f.manufacturer) + TwoDigitEntries(f.day) + TwoDigitEntries(f.month)
    + FourDigitEntries(f.sn) + TwoDigitEntries(f.year) + [0, 0]
  }

  /** serial_tab after its last two slots are overwritten with the tens and units of the CRC
      computed over the table with those slots zero. `crc6` stands for crc6_calculate. */
  function SerialTable(f: SerialFields, crc6: seq<Byte> -> nat): seq<Byte> {
    DigitTable(f)[..12] + TwoDigitEntries(crc6(DigitTable(f)))
  }

  /** Whether every entry of a table is a decimal digit. */
  predicate AllDigits(tab: seq<Byte>) {
    forall i :: 0 <= i < |tab| ==> tab[i] < 10
  }

  /** The characters of a table of digits, as bytes. */
  function Render(tab: seq<Byte>): (s: seq<Byte>)
    requires AllDigits(tab)
  {
    seq(|tab|, i requires 0 <= i < |tab| => DIGITS[tab[i]] as int)
  }

  /** The value of a decimal digit character, if it is one. */
  function DigitValue(c: Byte): Option<nat> {
    if '0' as int <= c <= '9' as int then Some(c - '0' as int) else None
  }

  /** Reads a serial string back: fourteen decimal digits whose last two are the CRC of the
      first twelve (with the CRC slots zero), recombined into the five fields. */
  function ParseSerial(s: seq<Byte>, crc6: seq<Byte> -> nat): Option<SerialFields> {
    if |s| != SERIAL_LEN || exists i :: 0 <= i < |s| && DigitValue(s[i]).None? then None
    else
      var d := DigitValues(s);
      var fields := FieldsOf(d);
      if crc6(DigitTable(fields)) == 10 * d[12] + d[13] then Some(fields) else None
  }

  /** The digit values of a string of fourteen digit characters. */
  function DigitValues(s: seq<Byte>): (d: seq<nat>)
    requires |s| == SERIAL_LEN && forall i :: 0 <= i < |s| ==> DigitValue(s[i]).Some?
    ensures |d| == SERIAL_LEN && forall i :: 0 <= i < SERIAL_LEN ==> d[i] < 10 && s[i] == '0' as int + d[i]
  {
    seq(SERIAL_LEN, i requires 0 <= i < SERIAL_LEN => DigitValue(s[i]).value)
  }

  /** The fields spelled by fourteen digits. */
  function FieldsOf(d: seq<nat>): SerialFields
    requires |d| == SERIAL_LEN && forall i :: 0 <= i < SERIAL_LEN ==> d[i] < 10
  {
    SerialFields(10 * d[0] + d[1], 10 * d[2] + d[3], 10 * d[4] + d[5],
                 1000 * d[6] + 100 * d[7] + 10 * d[8] + d[9], 10 * d[10] + d[11])
  }

  /** Quotient and remainder by a place value are determined by a decomposition. */
  lemma DivMod10(x: int, q: int, r: int)
    requires 0 <= r < 10 && x == 10 * q + r
    ensures x / 10 == q && x % 10 == r
  {
  }

  lemma DivMod100(x: int, q: int, r: int)
    requires 0 <= r < 100 && x == 100 * q + r
    ensures x / 100 == q && x % 100 == r
  {
  }

  lemma DivMod1000(x: int, q: int, r: int)
    requires 0 <= r < 1000 && x == 1000 * q + r
    ensures x / 1000 == q && x % 1000 == r
  {
  }

  /** The entries of a number below 100 are its two decimal digits. */
  lemma TwoDigitsSplit(x: nat)
    requires x < 100
    ensures var e := TwoDigitEntries(x); e[0] < 10 && e[1] < 10 && 10 * e[0] + e[1] == x
  {
    var t, u := x / 10, x % 10;
    assert x == 10 * t + u && 0 <= u < 10 && t < 10;
    TwoDigitsJoin(t, u);
  }

  /** The entries of a number below 10000 are its four decimal digits. */
  lemma FourDigitsSplit(x: nat)
    requires x < 10000
    ensures var e := FourDigitEntries(x);
      e[0] < 10 && e[1] < 10 && e[2] < 10 && e[3] < 10
      && 1000 * (e[0] as int) + 100 * (e[1] as int) + 10 * (e[2] as int) + e[3] == x
  {
    var a, r3 := x / 1000, x % 1000;
    assert x == 1000 * a + r3 && 0 <= r3 < 1000;
    var b, r2 := r3 / 100, r3 % 100;
    assert r3 == 100 * b + r2 && 0 <= r2 < 100;
    var c, d := r2 / 10, r2 % 10;
    assert r2 == 10 * c + d && 0 <= d < 10;
    assert a < 10 && b < 10 && c < 10;
    FourDigitsJoin(a, b, c, d);
  }

  /** Two digits recombined split back into the same digits. */
  lemma TwoDigitsJoin(a: nat, b: nat)
    requires a < 10 && b < 10
    ensures 10 * a + b < 100 && TwoDigitEntries(10 * a + b) == [a, b]
  {
    DivMod10(10 * a + b, a, b);
    DivMod10(10 * a, a, 0);
  }

  /** Four digits recombined split back into the same digits. */
  lemma FourDigitsJoin(a: nat, b: nat, c: nat, d: nat)
    requires a < 10 && b < 10 && c < 10 && d < 10
    ensures 1000 * a + 100 * b + 10 * c + d < 10000
    ensures FourDigitEntries(1000 * a + 100 * b + 10 * c + d) == [a, b, c, d]
  {
    var x := 1000 * a + 100 * b + 10 * c + d;
    DivMod1000(x, a, 100 * b + 10 * c + d);
    DivMod100(x, 10 * a + b, 10 * c + d);
    DivMod10(x, 100 * a + 10 * b + c, d);
    DivMod1000(1000 * a, a, 0);
    DivMod100(100 * b, b, 0);
    DivMod10(10 * c, c, 0);
  }

  /** For fields in range every table entry is a decimal digit, each digit pair or quadruple
      recombines to its field, and the last two entries are the tens and units of the CRC
      computed over the table with those slots zero. */
  lemma SerialTableDigits(f: SerialFields, crc6: seq<Byte> -> nat)
    requires InRange(f) && crc6(DigitTable(f)) < 100
    ensures var tab := SerialTable(f, crc6);
      |tab| == SERIAL_LEN && AllDigits(tab)
      && 10 * tab[0] + tab[1] == f.manufacturer
      && 10 * tab[2] + tab[3] == f.day
      && 10 * tab[4] + tab[5] == f.month
      && 1000 * (tab[6] as int) + 100 * (tab[7] as int) + 10 * (tab[8] as int) + tab[9] == f.sn
      && 10 * tab[10] + tab[11] == f.year
      && 10 * tab[12] + tab[13] == crc6(DigitTable(f))
      && tab[12] == crc6(DigitTable(f)) / 10 && tab[13] == crc6(DigitTable(f)) % 10
  {
    var crc := crc6(DigitTable(f));
    TwoDigitsSplit(f.manufacturer);
    TwoDigitsSplit(f.day);
    TwoDigitsSplit(f.month);
    FourDigitsSplit(f.sn);
    TwoDigitsSplit(f.year);
    TwoDigitsSplit(crc);
    var tab := SerialTable(f, crc6);
    assert tab == TwoDigitEntries(f.manufacturer) + TwoDigitEntries(f.day) + TwoDigitEntries(f.month)
                  + FourDigitEntries(f.sn) + TwoDigitEntries(f.year) + TwoDigitEntries(crc);
  }

  /** The table of the fields spelled by fourteen digits holds those digits. */
  lemma DigitTableOfDigits(d: seq<nat>)
    requires |d| == SERIAL_LEN && forall i :: 0 <= i < SERIAL_LEN ==> d[i] < 10
    ensures InRange(FieldsOf(d))
    ensures DigitTable(FieldsOf(d))[..12] == d[..12]
  {
    TwoDigitsJoin(d[0], d[1]);
    TwoDigitsJoin(d[2], d[3]);
    TwoDigitsJoin(d[4], d[5]);
    FourDigitsJoin(d[6], d[7], d[8], d[9]);
    TwoDigitsJoin(d[10], d[11]);
    assert d[..12] == [d[0], d[1]] + [d[2], d[3]] + [d[4], d[5]] + [d[6], d[7], d[8], d[9]] + [d[10], d[11]];
  }

  /** The digit table maps each digit to its ASCII character. */
  lemma DigitChar(t: int)
    requires 0 <= t < 10
    ensures DIGITS[t] as int == '0' as int + t
  {
    assert t == 0 || t == 1 || t == 2 || t == 3 || t == 4 || t == 5 || t == 6 || t == 7 || t == 8 || t == 9;
  }

  /** Every character of the serial string is one of '0'..'9', so the string has no NUL
      before its terminator. */
  lemma RenderedDigits(tab: seq<Byte>)
    requires AllDigits(tab)
    ensures forall i :: 0 <= i < |tab| ==> '0' as int <= Render(tab)[i] <= '9' as int
    ensures forall i :: 0 <= i < |tab| ==> DigitValue(Render(tab)[i]) == Some(tab[i] as nat)
  {
    forall i | 0 <= i < |tab|
      ensures '0' as int <= Render(tab)[i] <= '9' as int
      ensures DigitValue(Render(tab)[i]) == Some(tab[i] as nat)
    {
      DigitChar(tab[i]);
    }
  }

  /** Round trip: the serial string of in-range fields reads back as those fields, and its
      CRC digits check. */
  lemma SerialRoundTrip(f: SerialFields, crc6: seq<Byte> -> nat)
    requires InRange(f) && crc6(DigitTable(f)) < 100
    ensures AllDigits(SerialTable(f, crc6))
    ensures ParseSerial(Render(SerialTable(f, crc6)), crc6) == Some(f)
  {
    SerialTableDigits(f, crc6);
    var tab := SerialTable(f, crc6);
    var s := Render(tab);
    RenderedDigits(tab);
    var d := DigitValues(s);
    assert d == tab;
    assert FieldsOf(d) == f;
  }

  /** The converse: the only string that reads back as `f` is the serial string of `f`, so
      the encoding is a bijection between in-range fields and strings whose CRC checks. */
  lemma ParseSerialOnlyEncoding(s: seq<Byte>, crc6: seq<Byte> -> nat, f: SerialFields)
    requires ParseSerial(s, crc6) == Some(f)
    ensures InRange(f) && crc6(DigitTable(f)) < 100
    ensures AllDigits(SerialTable(f, crc6)) && s == Render(SerialTable(f, crc6))
  {
    var d := DigitValues(s);
    assert f == FieldsOf(d);
    DigitTableOfDigits(d);
    var crc := crc6(DigitTable(f));
    TwoDigitsJoin(d[12], d[13]);
    var tab := SerialTable(f, crc6);
    assert tab == d[..12] + [d[12], d[13]];
    assert tab == d;
    var r := Render(tab);
    forall i | 0 <= i < SERIAL_LEN ensures r[i] == s[i] {
      DigitChar(d[i]);
    }
  }

  /** The characters the loop prints, one per table entry, form the serial string: they
      are all digit characters, none is NUL, and they parse back to the fields. */
  lemma PrintedSerial(f: SerialFields, crc6: seq<Byte> -> nat, s: seq<Byte>)
    requires InRange(f) && crc6(DigitTable(f)) < 100
    requires AllDigits(SerialTable(f, crc6))
    requires |s| == SERIAL_LEN
    requires forall k :: 0 <= k < SERIAL_LEN ==> s[k] == DIGITS[SerialTable(f, crc6)[k]] as int
    ensures s == Render(SerialTable(f, crc6))
    ensures ParseSerial(s, crc6) == Some(f)
    ensures forall k :: 0 <= k < SERIAL_LEN ==> s[k] != 0
  {
    var tab := SerialTable(f, crc6);
    SerialTableDigits(f, crc6);
    RenderedDigits(tab);
    assert s == Render(tab);
    SerialRoundTrip(f, crc6);
  }

  /** The loop of services_init that fills m_serial_buf: serial_tab is built in place, its
      CRC slots are overwritten, and each entry is printed as one character followed by a
      terminating NUL (snprintf with "%c"), which the next iteration overwrites. */
  method EncodeSerial(f: SerialFields, crc6: seq<Byte> -> nat, buf: array<Byte>)
    requires InRange(f) && crc6(DigitTable(f)) < 100
    requires buf.Length > SERIAL_LEN
    modifies buf
    ensures AllDigits(SerialTable(f, crc6))
    ensures buf[..SERIAL_LEN] == Render(SerialTable(f, crc6))
    ensures ParseSerial(buf[..SERIAL_LEN], crc6) == Some(f)
    ensures buf[SERIAL_LEN] == 0
    ensures forall i :: 0 <= i < SERIAL_LEN ==> buf[i] != 0
    ensures buf[SERIAL_LEN + 1..] == old(buf[SERIAL_LEN + 1..])
  {
    var tab := BuildTable(f, crc6);
    PrintDigits(tab, buf);
    PrintedSerial(f, crc6, buf[..SERIAL_LEN]);
  }

  /** The printing loop: each entry of the table becomes its digit character followed by a
      NUL, which the next character overwrites. */
  method PrintDigits(tab: array<Byte>, buf: array<Byte>)
    requires tab.Length == SERIAL_LEN && AllDigits(tab[..])
    requires buf.Length > SERIAL_LEN && buf != tab
    modifies buf
    ensures forall k :: 0 <= k < SERIAL_LEN ==> buf[k] == DIGITS[tab[k]] as int
    ensures buf[SERIAL_LEN] == 0
    ensures buf[SERIAL_LEN + 1..] == old(buf[SERIAL_LEN + 1..])
  {
    for i := 0 to SERIAL_LEN
      invariant forall k :: 0 <= k < i ==> buf[k] == DIGITS[tab[k]] as int
      invariant i > 0 ==> buf[i] == 0
      invariant forall k :: i < k < buf.Length ==> buf[k] == old(buf[k])
    {
      assert tab[i] == tab[..][i];
      buf[i] := DIGITS[tab[i]] as int;
      buf[i + 1] := 0;
    }
  }

  /** serial_tab built on the stack: the digit entries of the fields, then the CRC slots
      overwritten with the tens and units of the CRC of the table with those slots zero. */
  method BuildTable(f: SerialFields, crc6: seq<Byte> -> nat) returns (tab: array<Byte>)
    requires InRange(f) && crc6(DigitTable(f)) < 100
    ensures fresh(tab) && tab[..] == SerialTable(f, crc6)
    ensures AllDigits(tab[..])
  {
    var table := DigitTable(f);
    tab := new Byte[SERIAL_LEN](i requires 0 <= i < SERIAL_LEN => table[i]);
    assert tab[..] == table;
    var crc := crc6(tab[..]);
    tab[SERIAL_LEN - 2] := U8((crc - crc % 10) / 10);
    tab[SERIAL_LEN - 1] := U8(crc % 10);
    SerialTableDigits(f, crc6);
    assert tab[..] == SerialTable(f, crc6);
  }
}
