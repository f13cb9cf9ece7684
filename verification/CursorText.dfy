/** The wire form of a row cursor (crates/kronika-query/src/rows.rs:402-423): five decimal
    fields joined by commas. */
module CursorText {
  import opened Machine
  import opened RowPages

  datatype Parsed = Number(value: int) | Bad

  function DigitChar(d: nat): char
    requires d < 10
  {
    '0' + d as char
  }

  predicate IsDigit(c: char) { '0' <= c <= '9' }

  function Decimal(n: nat): (text: string)
    ensures |text| >= 1 && forall i :: 0 <= i < |text| ==> IsDigit(text[i])
  {
    if n < 10 then [DigitChar(n)] else Decimal(n / 10) + [DigitChar(n % 10)]
  }

  function Signed(n: int): string {
    if n < 0 then "-" + Decimal(-n) else Decimal(n)
  }

  /** Digits read left to right; at least one is needed. */
  function ParseDigits(text: string): Parsed {
    if text == [] then Bad
    else
      var last := text[|text| - 1];
      if !IsDigit(last) then Bad
      else
        var d := last as int - '0' as int;
        if |text| == 1 then Number(d)
        else match ParseDigits(text[..|text| - 1])
             case Bad => Bad
             case Number(high) => Number(10 * high + d)
  }

  function InRange(p: Parsed, lo: int, hi: int): Parsed {
    if p.Number? && lo <= p.value <= hi then p else Bad
  }

  /** An unsigned field: an optional plus sign, digits, no more than 64 bits. */
  function ParseUnsigned(text: string): Parsed {
    InRange(ParseDigits(if text != [] && text[0] == '+' then text[1..] else text), 0, U64_MAX)
  }

  function ParseSigned(text: string): Parsed {
    if text != [] && text[0] == '-' then
      (match ParseDigits(text[1..])
       case Bad => Bad
       case Number(n) => InRange(Number(-n), I64_MIN, I64_MAX))
    else InRange(ParseDigits(if text != [] && text[0] == '+' then text[1..] else text), I64_MIN, I64_MAX)
  }

  function Split(text: string): (fields: seq<string>)
    ensures |fields| >= 1
  {
    if text == [] then [[]]
    else
      var rest := Split(text[1..]);
      if text[0] == ',' then [[]] + rest else [[text[0]] + rest[0]] + rest[1..]
  }

  function Parse(text: string): Result<Cursor> {
    var fields := Split(text);
    if |fields| != 5 then Err(BadCursor)
    else
      var id, active := ParseSigned(fields[0]), ParseUnsigned(fields[1]);
      var layout, position, binding := ParseUnsigned(fields[2]), ParseUnsigned(fields[3]), ParseUnsigned(fields[4]);
      if id.Bad? || active.Bad? || layout.Bad? || position.Bad? || binding.Bad? then Err(BadCursor)
      else
        ParsedIsNat(fields[1]); ParsedIsNat(fields[2]); ParsedIsNat(fields[3]); ParsedIsNat(fields[4]);
        Ok(Cursor(id.value, active.value, layout.value, position.value, binding.value))
  }

  function Join(fields: seq<string>): string
    requires fields != []
  {
    if |fields| == 1 then fields[0] else fields[0] + "," + Join(fields[1..])
  }

  function Encode(c: Cursor): string {
    Join([Signed(c.segmentId), Decimal(c.activePosition), Decimal(c.layoutIndex), Decimal(c.position),
          Decimal(c.binding)])
  }

  lemma {:induction false} ParsedIsNat(text: string)
    ensures ParseUnsigned(text).Number? ==> ParseUnsigned(text).value >= 0
  {
  }

  lemma {:induction false} DigitsRoundTrip(n: nat)
    ensures ParseDigits(Decimal(n)) == Number(n)
  {
    if n < 10 {
    } else {
      DigitsRoundTrip(n / 10);
      assert Decimal(n)[..|Decimal(n)| - 1] == Decimal(n / 10);
    }
  }

  lemma {:induction false} UnsignedRoundTrip(n: nat)
    requires n <= U64_MAX
    ensures ParseUnsigned(Decimal(n)) == Number(n)
  {
    DigitsRoundTrip(n);
    assert IsDigit(Decimal(n)[0]);
  }

  lemma {:induction false} SignedRoundTrip(n: int)
    requires I64_MIN <= n <= I64_MAX
    ensures ParseSigned(Signed(n)) == Number(n)
  {
    if n < 0 {
      DigitsRoundTrip(-n);
      assert ("-" + Decimal(-n))[1..] == Decimal(-n);
    } else {
      DigitsRoundTrip(n);
      assert IsDigit(Decimal(n)[0]);
    }
  }

  /** Numbers are written in decimal digits without leading zeros, a minus sign only before a
      negative one. */
  lemma {:induction false} NumbersAreCanonical(n: int)
    ensures Signed(n) != "" && (Signed(n)[0] == '-' <==> n < 0)
    ensures n >= 0 ==> Signed(n) == Decimal(n)
    ensures n >= 0 ==> (Decimal(n)[0] == '0' <==> n == 0) && (n < 10 ==> |Decimal(n)| == 1)
    ensures n >= 0 ==> forall i :: 0 <= i < |Decimal(n)| ==> '0' <= Decimal(n)[i] <= '9'
    decreases if n < 0 then 1 - n else n
  {
    if n < 0 {
      NumbersAreCanonical(-n);
    } else if n < 10 {
    } else {
      NumbersAreCanonical(n / 10);
    }
  }

  /** The digit of the units comes last. */
  lemma {:induction false} LastDigit(n: nat)
    ensures Decimal(n) == (if n < 10 then "" else Decimal(n / 10)) + ["0123456789"[n % 10]]
  {
  }

  /** Five numbers, comma separated: segment, journal position, layout, row, request. */
  lemma {:induction false} CursorExample()
    ensures Encode(Cursor(-3, 2, 1, 7, 8)) == "-3,2,1,7,8"
  {
    hide Decimal;
    OneDigit();
  }

  lemma {:induction false} OneDigit()
    ensures Decimal(1) == "1" && Decimal(2) == "2" && Decimal(3) == "3" && Decimal(7) == "7" && Decimal(8) == "8"
  {
  }

  predicate NoComma(text: string) { forall i :: 0 <= i < |text| ==> text[i] != ',' }

  lemma {:induction false} SplitField(field: string, rest: string)
    requires NoComma(field)
    ensures Split(field) == [field]
    ensures Split(field + "," + rest) == [field] + Split(rest)
  {
    var text := field + "," + rest;
    if field == [] {
      assert text[1..] == rest;
    } else {
      SplitField(field[1..], rest);
      assert text[1..] == field[1..] + "," + rest;
      assert [field[0]] + field[1..] == field;
    }
  }

  lemma {:induction false} SplitJoin(fields: seq<string>)
    requires fields != [] && forall i :: 0 <= i < |fields| ==> NoComma(fields[i])
    ensures Split(Join(fields)) == fields
  {
    hide NoComma;
    SplitField(fields[0], if |fields| == 1 then "" else Join(fields[1..]));
    if |fields| <= 1 {
    } else {
      SplitJoin(fields[1..]);
    }
  }

  /** Every cursor whose fields fit their machine types is read back exactly. */
  lemma {:induction false} CursorRoundTrip(c: Cursor)
    requires I64_MIN <= c.segmentId <= I64_MAX
    requires c.activePosition <= U64_MAX && c.layoutIndex <= U64_MAX
    requires c.position <= U64_MAX && c.binding <= U64_MAX
    ensures Parse(Encode(c)) == Ok(c)
  {
    SplitJoin([Signed(c.segmentId), Decimal(c.activePosition), Decimal(c.layoutIndex), Decimal(c.position),
               Decimal(c.binding)]);
    SignedRoundTrip(c.segmentId);
    UnsignedRoundTrip(c.activePosition);
    UnsignedRoundTrip(c.layoutIndex);
    UnsignedRoundTrip(c.position);
    UnsignedRoundTrip(c.binding);
  }
}
