/** The 14-character order token the exchange sees, and the numeric id it carries in base 36. */
module Base36 {
  const MAX_INT: nat := 2147483647

  datatype Side = Buy | SellLong | SellShort

  function SideChar(side: Side): char {
    match side case Buy => 'B' case SellLong => 'S' case SellShort => 'T'
  }

  /** A 32-bit `int` after a multiplication that may overflow. */
  function Wrapped(x: int): int {
    (x + 0x8000_0000) % 0x1_0000_0000 - 0x8000_0000
  }

  function Pow(b: nat, k: nat): (p: nat)
    requires b > 0
    ensures p > 0
  {
    if k == 0 then 1 else b * Pow(b, k - 1)
  }

  // ----- Numerals -----

  function Digit(d: nat): char
    requires d < 36
  {
    if d > 9 then 'A' + (d - 10) as char else '0' + d as char
  }

  predicate IsDigit(c: char) {
    '0' <= c <= '9' || 'A' <= c <= 'Z'
  }

  /** The digit a character stands for. */
  function DigitValue(c: char): (d: nat)
    requires IsDigit(c)
    ensures d < 36 && Digit(d) == c
  {
    if c <= '9' then (c - '0') as nat else 10 + (c - 'A') as nat
  }

  /** `n` in base 36, without leading zeros; nothing for zero or less. */
  function Numeral(n: int): (s: string)
    ensures forall i :: 0 <= i < |s| ==> IsDigit(s[i])
  {
    if n <= 0 then "" else Numeral(n / 36) + [Digit(n % 36)]
  }

  lemma NumeralStep(n: int)
    ensures Numeral(n) == if n <= 0 then "" else Numeral(n / 36) + [Digit(n % 36)]
  {
  }

  function ValueOf(s: string): nat
    requires forall i :: 0 <= i < |s| ==> IsDigit(s[i])
  {
    if s == "" then 0 else 36 * ValueOf(s[..|s| - 1]) + DigitValue(s[|s| - 1])
  }

  lemma {:induction false} ValueOfNumeral(n: nat)
    ensures ValueOf(Numeral(n)) == n
  {
    if n > 0 {
      ValueOfNumeral(n / 36);
      var s := Numeral(n);
      assert s[..|s| - 1] == Numeral(n / 36);
      assert s[|s| - 1] == Digit(n % 36);
    }
  }

  /** A numeral fits `k` characters exactly when its number is below 36 to the `k`. */
  lemma {:induction false} NumeralFits(n: nat, k: nat)
    ensures |Numeral(n)| <= k <==> n < Pow(36, k)
  {
    if n > 0 && k > 0 {
      NumeralFits(n / 36, k - 1);
    }
  }

  /** Any 32-bit id takes six characters at most. */
  lemma IdsFitSixSlots(n: int)
    requires n <= MAX_INT
    ensures |Numeral(n)| <= 6
  {
    assert Pow(36, 2) == 1296;
    assert Pow(36, 4) == 1296 * 1296;
    assert Pow(36, 6) == 1296 * 1296 * 1296;
    if n > 0 { NumeralFits(n, 6); }
  }

  // ----- The token -----

  function Blanks(n: nat): string {
    seq(n, _ => ' ')
  }

  /** Slot 0 the side, 1 to 6 the symbol, 7 to 12 the id set right, 13 blank. */
  function Token(side: Side, symbol: string, id: int): (t: string)
    requires |symbol| >= 6 && id <= MAX_INT
    ensures |t| == 14
  {
    IdsFitSixSlots(id);
    [SideChar(side)] + symbol[..6] + Blanks(6 - |Numeral(id)|) + Numeral(id) + " "
  }

  /** The digits that end `s`, after its last blank. */
  function AfterLastBlank(s: string): (t: string)
    ensures (forall i :: 0 <= i < |s| ==> IsDigit(s[i]) || s[i] == ' ') ==> forall i :: 0 <= i < |t| ==> IsDigit(t[i])
  {
    if s == "" || s[|s| - 1] == ' ' then "" else AfterLastBlank(s[..|s| - 1]) + [s[|s| - 1]]
  }

  lemma {:induction false} BlankEnds(s: string, k: nat)
    requires k <= |s| && (k == 0 || s[k - 1] == ' ')
    requires forall i :: k <= i < |s| ==> s[i] != ' '
    ensures AfterLastBlank(s) == s[k..]
    decreases |s|
  {
    if k < |s| {
      BlankEnds(s[..|s| - 1], k);
      assert s[..|s| - 1][k..] + [s[|s| - 1]] == s[k..];
    }
  }

  /** What a decoder accepts: digits and blanks in the id's slots, and a number that fits an `int`. */
  predicate Readable(token: string) {
    && |token| >= 13
    && (forall i :: 7 <= i < 13 ==> IsDigit(token[i]) || token[i] == ' ')
    && IdIn(token[7..13]) <= MAX_INT
  }

  function IdIn(slots: string): nat
    requires forall i :: 0 <= i < |slots| ==> IsDigit(slots[i]) || slots[i] == ' '
  {
    ValueOf(AfterLastBlank(slots))
  }

  /** The way back: a token carries the id it was made from. */
  lemma {:induction false} TokenCarriesId(side: Side, symbol: string, id: nat)
    requires |symbol| >= 6 && id <= MAX_INT
    ensures Readable(Token(side, symbol, id))
    ensures IdIn(Token(side, symbol, id)[7..13]) == id
  {
    IdsFitSixSlots(id);
    ValueOfNumeral(id);
    var n, t := Numeral(id), Token(side, symbol, id);
    var slots := t[7..13];
    assert slots == Blanks(6 - |n|) + n;
    assert forall i :: 7 <= i < 13 ==> t[i] == slots[i - 7];
    assert slots[6 - |n|..] == n;
    BlankEnds(slots, 6 - |n|);
  }

  /** Side, symbol and last slot of a token. */
  lemma TokenFrame(t: string, side: Side, symbol: string, id: int)
    requires |symbol| >= 6 && id <= MAX_INT && t == Token(side, symbol, id)
    ensures (t[0] == 'B' <==> side == Buy) && (t[0] == 'S' <==> side == SellLong) && (t[0] == 'T' <==> side == SellShort)
    ensures t[1..7] == symbol[..6] && t[13] == ' '
  {
  }

  /** One token, and one id, spelled out. */
  lemma KnownToken()
    ensures Token(Buy, "ABCDEF", 123456789) == "BABCDEF21I3V9 "
    ensures Token(SellLong, "ABCDEF", 35) == "SABCDEF     Z "
    ensures Decimal(42, 9) == "000000042"
  {
    hide Numeral, Decimal;
    KnownNumerals();
    KnownDecimal();
    assert "ABCDEF"[..6] == "ABCDEF" && Blanks(0) == "" && Blanks(5) == "     ";
    assert ['B'] + "ABCDEF" + "" + "21I3V9" + " " == "BABCDEF21I3V9 ";
    assert ['S'] + "ABCDEF" + "     " + "Z" + " " == "SABCDEF     Z ";
  }

  lemma KnownNumerals()
    ensures Numeral(35) == "Z" && Numeral(123456789) == "21I3V9"
  {
    assert Numeral(0) == "";
    assert Numeral(2) == Numeral(0) + "2";
    assert Numeral(73) == Numeral(2) + "1";
    assert Numeral(2646) == Numeral(73) + "I";
    assert Numeral(95259) == Numeral(2646) + "3";
    assert Numeral(3429355) == Numeral(95259) + "V";
    assert Numeral(123456789) == Numeral(3429355) + "9";
  }

  lemma KnownDecimal()
    ensures Decimal(42, 9) == "000000042"
  {
    assert Decimal(0, 4) == "0000" && Decimal(0, 7) == Decimal(0, 4) + "000";
    assert Decimal(4, 8) == Decimal(0, 7) + "4";
    assert Decimal(42, 9) == Decimal(4, 8) + "2";
  }

  /** Two tokens are the same only for the same side, symbol and id. */
  lemma TokensTellOrdersApart(s1: Side, sym1: string, id1: nat, s2: Side, sym2: string, id2: nat)
    requires |sym1| >= 6 && id1 <= MAX_INT && |sym2| >= 6 && id2 <= MAX_INT
    ensures Token(s1, sym1, id1) == Token(s2, sym2, id2) <==> s1 == s2 && sym1[..6] == sym2[..6] && id1 == id2
  {
    TokenCarriesId(s1, sym1, id1);
    TokenCarriesId(s2, sym2, id2);
    var t1, t2 := Token(s1, sym1, id1), Token(s2, sym2, id2);
    assert t1[0] == SideChar(s1) && t2[0] == SideChar(s2);
    assert t1[1..7] == sym1[..6] && t2[1..7] == sym2[..6];
  }

  // ----- Encoders -----

  const DIGITS: string := "0123456789ABCDEFGHIJKLMNOPQRSTUVWXYZ"

  lemma TableOfDigits(d: nat)
    requires d < 36
    ensures DIGITS[d] == Digit(d)
  {
  }

  /** Side and symbol, in front of the id's slots. */
  method PutHead(token: array<char>, side: Side, symbol: string)
    requires token.Length >= 14 && |symbol| >= 6
    modifies token
    ensures token[..7] == [SideChar(side)] + symbol[..6]
    ensures token[7..] == old(token[7..])
  {
    token[0] := SideChar(side);
    forall i | 0 <= i < 6 {
      token[1 + i] := symbol[i];
    }
  }

  lemma TokenIs(t: string, side: Side, symbol: string, id: int, cur: nat)
    requires |t| == 14 && |symbol| >= 6 && id <= MAX_INT && 6 <= cur <= 12
    requires t[..7] == [SideChar(side)] + symbol[..6]
    requires forall i :: 7 <= i <= cur ==> t[i] == ' '
    requires t[cur + 1..13] == Numeral(id)
    requires t[13] == ' '
    ensures t == Token(side, symbol, id)
  {
    assert t[7..cur + 1] == Blanks(cur - 6);
    assert t == t[..7] + t[7..cur + 1] + t[cur + 1..13] + [t[13]];
  }

  /** Writes the digits of `id` leftwards from slot 12 by arithmetic and blanks what is left; the first and
      the second encoder, which differ in how they parse the id. */
  method EncodeByArithmetic(symbol: string, side: Side, id: int, token: array<char>)
    requires token.Length >= 14 && |symbol| >= 6 && id <= MAX_INT
    modifies token
    ensures (token[0] == 'B' <==> side == Buy) && (token[0] == 'S' <==> side == SellLong) && (token[0] == 'T' <==> side == SellShort)
    ensures token[1..7] == symbol[..6] && token[13] == ' '
    ensures token[..14] == Token(side, symbol, id)
    ensures token[14..] == old(token[14..])
  {
    hide Numeral, Token;
    PutHead(token, side, symbol);
    var remainder, cur := id, 12;
    IdsFitSixSlots(id);
    assert token[13..13] == "";
    while remainder > 0
      invariant cur == 12 - |Numeral(id)| + |Numeral(remainder)|
      invariant 6 <= cur <= 12
      invariant Numeral(id) == Numeral(remainder) + token[cur + 1..13]
      invariant token[..7] == [SideChar(side)] + symbol[..6] && token[14..] == old(token[14..])
    {
      NumeralStep(remainder);
      var digit := remainder % 36;
      if digit > 9 {
        token[cur] := 'A' + (digit - 10) as char;
      } else {
        token[cur] := '0' + digit as char;
      }
      assert token[cur..13] == [Digit(digit)] + token[cur + 1..13];
      remainder := remainder / 36;
      cur := cur - 1;
    }
    NumeralStep(remainder);
    BlankOut(token, cur);
    assert token[cur + 1..13] == Numeral(id);
    label blanked:
    token[13] := ' ';
    assert token[cur + 1..13] == old@blanked(token[cur + 1..13]);
    TokenIs(token[..14], side, symbol, id, cur);
    TokenFrame(token[..14], side, symbol, id);
  }

  /** Blanks the slots the id does not need, one by one. */
  method BlankOut(token: array<char>, from: nat)
    requires token.Length >= 14 && 6 <= from <= 12
    modifies token
    ensures forall i :: 7 <= i <= from ==> token[i] == ' '
    ensures token[..7] == old(token[..7]) && token[from + 1..13] == old(token[from + 1..13])
    ensures token[14..] == old(token[14..])
  {
    var cur := from;
    while cur > 6
      invariant 6 <= cur <= from
      invariant forall i :: cur < i <= from ==> token[i] == ' '
      invariant token[..7] == old(token[..7]) && token[from + 1..] == old(token[from + 1..])
      invariant token[14..] == old(token[14..])
    {
      token[cur] := ' ';
      cur := cur - 1;
    }
  }

  /** Blanks them all at once. */
  method FillBlanks(token: array<char>, from: nat)
    requires token.Length >= 14 && 6 <= from <= 12
    modifies token
    ensures forall i :: 7 <= i <= from ==> token[i] == ' '
    ensures token[..7] == old(token[..7]) && token[from + 1..13] == old(token[from + 1..13])
    ensures token[14..] == old(token[14..])
  {
    forall i | 7 <= i <= from {
      token[i] := ' ';
    }
  }

  /** The third encoder looks its digits up. */
  method EncodeByTable(symbol: string, side: Side, id: int, token: array<char>)
    requires token.Length >= 14 && |symbol| >= 6 && id <= MAX_INT
    modifies token
    ensures (token[0] == 'B' <==> side == Buy) && (token[0] == 'S' <==> side == SellLong) && (token[0] == 'T' <==> side == SellShort)
    ensures token[1..7] == symbol[..6] && token[13] == ' '
    ensures token[..14] == Token(side, symbol, id)
    ensures token[14..] == old(token[14..])
  {
    hide Numeral, Token;
    PutHead(token, side, symbol);
    var remainder, cur := id, 12;
    IdsFitSixSlots(id);
    assert token[13..13] == "";
    while remainder > 0
      invariant cur == 12 - |Numeral(id)| + |Numeral(remainder)|
      invariant 6 <= cur <= 12
      invariant Numeral(id) == Numeral(remainder) + token[cur + 1..13]
      invariant token[..7] == [SideChar(side)] + symbol[..6] && token[14..] == old(token[14..])
    {
      NumeralStep(remainder);
      var digit := remainder % 36;
      remainder := remainder / 36;
      TableOfDigits(digit);
      token[cur] := DIGITS[digit];
      assert token[cur..13] == [Digit(digit)] + token[cur + 1..13];
      cur := cur - 1;
    }
    NumeralStep(remainder);
    BlankOut(token, cur);
    assert token[cur + 1..13] == Numeral(id);
    label blanked:
    token[13] := ' ';
    assert token[cur + 1..13] == old@blanked(token[cur + 1..13]);
    TokenIs(token[..14], side, symbol, id, cur);
    TokenFrame(token[..14], side, symbol, id);
  }

  /** The fourth encoder runs until the id is zero, so it is not for negative ids, and blanks in one go. */
  method EncodeByTableAndFill(symbol: string, side: Side, id: nat, token: array<char>)
    requires token.Length >= 14 && |symbol| >= 6 && id <= MAX_INT
    modifies token
    ensures (token[0] == 'B' <==> side == Buy) && (token[0] == 'S' <==> side == SellLong) && (token[0] == 'T' <==> side == SellShort)
    ensures token[1..7] == symbol[..6] && token[13] == ' '
    ensures token[..14] == Token(side, symbol, id)
    ensures token[14..] == old(token[14..])
  {
    hide Numeral, Token;
    PutHead(token, side, symbol);
    var remainder, cur := id, 12;
    IdsFitSixSlots(id);
    assert token[13..13] == "";
    while remainder != 0
      invariant cur == 12 - |Numeral(id)| + |Numeral(remainder)|
      invariant 6 <= cur <= 12
      invariant Numeral(id) == Numeral(remainder) + token[cur + 1..13]
      invariant token[..7] == [SideChar(side)] + symbol[..6] && token[14..] == old(token[14..])
    {
      NumeralStep(remainder);
      var digit := remainder % 36;
      remainder := remainder / 36;
      TableOfDigits(digit);
      token[cur] := DIGITS[digit];
      assert token[cur..13] == [Digit(digit)] + token[cur + 1..13];
      cur := cur - 1;
    }
    NumeralStep(remainder);
    if cur > 6 {
      FillBlanks(token, cur);
    }
    assert token[cur + 1..13] == Numeral(id);
    label blanked:
    token[13] := ' ';
    assert token[cur + 1..13] == old@blanked(token[cur + 1..13]);
    TokenIs(token[..14], side, symbol, id, cur);
    TokenFrame(token[..14], side, symbol, id);
  }

  // ----- Decoders -----

  /** The first decoder's digit. */
  function ArithmeticDigit(c: char): int {
    if c < 'A' then c as int - '0' as int else 10 + (c as int - 'A' as int)
  }

  function Zeros(n: nat): seq<nat> {
    seq(n, _ => 0)
  }

  const LETTERS: seq<nat> :=
    [10, 11, 12, 13, 14, 15, 16, 17, 18, 19, 20, 21, 22, 23, 24, 25, 26, 27, 28, 29, 30, 31, 32, 33, 34, 35, 36]

  /** The table of the other two decoders. */
  const TYPE: seq<nat> :=
    Zeros(48) + [0, 1, 2, 3, 4, 5, 6, 7, 8, 9] + Zeros(7) +
    LETTERS +
    Zeros(163)

  function TableDigit(c: char): nat
    requires (c as int) < 255
  {
    assert |TYPE| == 255;
    TYPE[c as int]
  }

  lemma TableShape(c: char)
    requires (c as int) < 255
    ensures TableDigit(c) == if '0' <= c <= '9' then (c - '0') as nat else if 'A' <= c <= '[' then 10 + (c - 'A') as nat else 0
  {
    var x := c as int;
    if 48 <= x < 58 {
      assert TYPE[x] == [0, 1, 2, 3, 4, 5, 6, 7, 8, 9][x - 48];
    } else if 65 <= x < 92 {
      assert TYPE[x] == LETTERS[x - 65];
    } else if x < 48 {
      assert TYPE[x] == Zeros(48)[x];
    } else if x < 65 {
      assert TYPE[x] == Zeros(7)[x - 58];
    } else {
      assert TYPE[x] == Zeros(163)[x - 92];
    }
  }

  /** The decoders read a character alike exactly when it is a digit, or the bracket after Z. */
  lemma DecodersAgreeOn(c: char)
    requires (c as int) < 255
    ensures ArithmeticDigit(c) == TableDigit(c) <==> IsDigit(c) || c == '['
    ensures IsDigit(c) ==> TableDigit(c) == DigitValue(c)
  {
    hide TableDigit;
    TableShape(c);
  }

  /** A new leading digit adds its weight. */
  lemma {:induction false} ValueOfLeading(c: char, s: string)
    requires IsDigit(c) && forall i :: 0 <= i < |s| ==> IsDigit(s[i])
    ensures ValueOf([c] + s) == DigitValue(c) * Pow(36, |s|) + ValueOf(s)
    decreases |s|
  {
    hide IsDigit, DigitValue;
    var t := [c] + s;
    if s != "" {
      var front, last := s[..|s| - 1], s[|s| - 1];
      ValueOfLeading(c, front);
      assert t[..|t| - 1] == [c] + front;
      assert ValueOf(t) == 36 * ValueOf([c] + front) + DigitValue(last);
      Weighs(DigitValue(c), Pow(36, |front|));
    } else {
      assert t[..0] == "" && t[0] == c;
    }
  }

  lemma Weighs(d: nat, w: nat)
    ensures 36 * (d * w) == d * (36 * w)
  {
  }

  lemma {:induction false} SuffixIsNoLarger(s: string, k: nat)
    requires k <= |s| && forall i :: 0 <= i < |s| ==> IsDigit(s[i])
    ensures ValueOf(s[k..]) <= ValueOf(s)
    decreases |s|
  {
    if k == |s| {
      assert s[k..] == "";
    } else {
      SuffixIsNoLarger(s[..|s| - 1], k);
      assert s[k..][..|s[k..]| - 1] == s[..|s| - 1][k..];
    }
  }

  lemma {:induction false} PowersFit(k: nat)
    requires k <= 5
    ensures 1 <= Pow(36, k) <= 60466176
  {
    if k > 0 {
      PowersFit(k - 1);
      assert Pow(36, 0) == 1 && Pow(36, 1) == 36 && Pow(36, 2) == 1296 && Pow(36, 3) == 46656;
      assert Pow(36, 4) == 1679616 && Pow(36, 5) == 60466176;
    }
  }

  // ----- Decimal ids -----

  /** The last `k` decimal digits of `n`, with leading zeros. */
  function Decimal(n: nat, k: nat): (s: string)
    ensures |s| == k && forall i :: 0 <= i < k ==> '0' <= s[i] <= '9'
  {
    if k == 0 then "" else Decimal(n / 10, k - 1) + ['0' + (n % 10) as char]
  }

  function ReadDecimal(s: string): nat
    requires forall i :: 0 <= i < |s| ==> '0' <= s[i] <= '9'
  {
    if s == "" then 0 else 10 * ReadDecimal(s[..|s| - 1]) + (s[|s| - 1] - '0') as nat
  }

  /** Reading back `k` digits of `n` leaves out a multiple of 10 to the `k`, and no more. */
  lemma {:induction false} DecimalKeepsLastDigits(n: nat, k: nat) returns (dropped: nat)
    ensures ReadDecimal(Decimal(n, k)) < Pow(10, k)
    ensures n == Pow(10, k) * dropped + ReadDecimal(Decimal(n, k))
  {
    if k == 0 {
      dropped := n;
    } else {
      dropped := DecimalKeepsLastDigits(n / 10, k - 1);
      var s := Decimal(n, k);
      assert s[..k - 1] == Decimal(n / 10, k - 1);
      assert s[k - 1] == '0' + (n % 10) as char;
      TimesTen(n, Pow(10, k - 1), dropped, ReadDecimal(Decimal(n / 10, k - 1)));
    }
  }

  lemma TimesTen(n: nat, p: nat, dropped: nat, rest: nat)
    requires n / 10 == p * dropped + rest
    ensures n == 10 * p * dropped + (10 * rest + n % 10)
  {
    assert 10 * p * dropped == 10 * (p * dropped);
  }

  lemma LeftOver(n: nat, dropped: nat, kept: nat)
    requires n == 1_000_000_000 * dropped + kept && kept < 1_000_000_000
    ensures kept == n % 1_000_000_000
  {
  }

  lemma NineDigits(n: nat)
    ensures ReadDecimal(Decimal(n, 9)) == n % 1_000_000_000
  {
    var dropped := DecimalKeepsLastDigits(n, 9);
    var kept := ReadDecimal(Decimal(n, 9));
    hide ReadDecimal, Decimal;
    assert Pow(10, 9) == 1_000_000_000;
    hide Pow;
    LeftOver(n, dropped, kept);
  }

  /** Encoding an id and decoding the token gives the id's last nine decimal digits: the id itself exactly
      when it has no more than nine. */
  lemma IdsComeBack(side: Side, symbol: string, id: nat)
    requires |symbol| >= 6 && id <= MAX_INT
    ensures Readable(Token(side, symbol, id))
    ensures var back := ReadDecimal(Decimal(IdIn(Token(side, symbol, id)[7..13]), 9));
      && back == id % 1_000_000_000
      && (back == id <==> id < 1_000_000_000)
  {
    hide Token, Decimal, ReadDecimal;
    TokenCarriesId(side, symbol, id);
    NineDigits(id);
  }

  /** Writes the last nine decimal digits of an id, from the right. */
  method PutDecimal(id: nat, out: array<char>)
    requires out.Length >= 9
    modifies out
    ensures out[..9] == Decimal(id, 9) && out[9..] == old(out[9..])
  {
    var remaining := id;
    var offset := 8;
    while offset >= 0
      invariant -1 <= offset <= 8 && remaining >= 0
      invariant Decimal(id, 9) == Decimal(remaining, offset + 1) + out[offset + 1..9]
      invariant out[9..] == old(out[9..])
    {
      ghost var before := out[offset + 1..9];
      out[offset] := '0' + (remaining % 10) as char;
      assert out[offset..9] == ['0' + (remaining % 10) as char] + before;
      remaining := remaining / 10;
      offset := offset - 1;
    }
    assert out[..9] == out[0..9];
  }

  /** One step of either decoder, at slot `cur` with `sum` read from the slots behind it. */
  lemma SlotRead(token: string, cur: nat, sum: nat, multiplier: int)
    requires Readable(token) && 7 <= cur <= 12
    requires forall i :: cur <= i < 13 ==> token[i] != ' '
    requires sum == ValueOf(token[cur + 1..13]) && multiplier == Pow(36, 12 - cur)
    ensures sum + multiplier * DigitValue(token[cur]) == ValueOf(token[cur..13]) <= MAX_INT
    ensures cur > 7 ==> Wrapped(multiplier * 36) == Pow(36, 13 - cur)
  {
    hide ValueOf, AfterLastBlank, DigitValue, IdIn;
    assert token[cur..13] == [token[cur]] + token[cur + 1..13];
    ValueOfLeading(token[cur], token[cur + 1..13]);
    if cur > 7 { PowersFit(13 - cur); }
    LargestBehind(token, cur);
  }

  lemma LargestBehind(token: string, cur: nat)
    requires Readable(token) && 7 <= cur <= 13
    requires forall i :: cur <= i < 13 ==> token[i] != ' '
    ensures ValueOf(token[cur..13]) <= MAX_INT
  {
    var slots := token[7..13];
    var k := LastBlank(slots);
    BlankEnds(slots, k);
    assert forall i :: 0 <= i < 6 ==> slots[i] == token[7 + i];
    assert k <= cur - 7;
    SuffixIsNoLarger(slots[k..], cur - 7 - k);
    assert slots[k..][cur - 7 - k..] == token[cur..13];
  }

  /** Where the digits after the last blank start. */
  function LastBlank(s: string): (k: nat)
    ensures k <= |s| && (k == 0 || s[k - 1] == ' ') && forall i :: k <= i < |s| ==> s[i] != ' '
  {
    if s == "" then 0 else if s[|s| - 1] == ' ' then |s| else LastBlank(s[..|s| - 1])
  }

  /** Both decoders stop at a blank or in front of the slots, with the whole id read. */
  lemma AllRead(token: string, cur: nat)
    requires Readable(token) && 6 <= cur <= 12 && (cur == 6 || token[cur] == ' ')
    requires forall i :: cur < i < 13 ==> token[i] != ' '
    ensures IdIn(token[7..13]) == ValueOf(token[cur + 1..13])
  {
    BlankEnds(token[7..13], cur - 6);
    assert token[7..13][cur - 6..] == token[cur + 1..13];
  }

  /** The first decoder. */
  method DecodeByArithmetic(token: string, out: array<char>)
    requires Readable(token) && out.Length >= 9
    modifies out
    ensures out[..9] == Decimal(IdIn(token[7..13]), 9) && out[9..] == old(out[9..])
  {
    assert ValueOf("") == 0 && Pow(36, 0) == 1;
    hide ValueOf, Pow, IdIn, AfterLastBlank, Decimal;
    var cur, orderId, multiplier := 12, 0, 1;
    assert token[13..13] == "";
    while cur > 6 && token[cur] != ' '
      invariant 6 <= cur <= 12 && (forall i :: cur < i < 13 ==> token[i] != ' ')
      invariant orderId == ValueOf(token[cur + 1..13]) <= MAX_INT
      invariant out[..] == old(out[..])
      invariant cur > 6 ==> multiplier == Pow(36, 12 - cur)
    {
      SlotRead(token, cur, orderId, multiplier);
      var c := token[cur];
      if c < 'A' {
        orderId := orderId + multiplier * (c as int - '0' as int);
      } else {
        orderId := orderId + multiplier * (10 + (c as int - 'A' as int));
      }
      multiplier := Wrapped(multiplier * 36);
      cur := cur - 1;
    }
    AllRead(token, cur);
    PutDecimal(orderId, out);
  }

  method LookUp(c: char) returns (digit: nat)
    requires IsDigit(c)
    ensures digit == DigitValue(c)
  {
    DecodersAgreeOn(c);
    digit := TableDigit(c);
  }

  /** The second and the third decoder, whose tables differ only in the width of their entries. */
  method DecodeByTable(token: string, out: array<char>)
    requires Readable(token) && out.Length >= 9
    modifies out
    ensures out[..9] == Decimal(IdIn(token[7..13]), 9) && out[9..] == old(out[9..])
  {
    assert ValueOf("") == 0 && Pow(36, 0) == 1;
    hide ValueOf, Pow, DigitValue, IdIn, AfterLastBlank, Decimal;
    var cur, orderId, multiplier := 12, 0, 1;
    assert token[13..13] == "";
    while cur > 6 && token[cur] != ' '
      invariant 6 <= cur <= 12 && (forall i :: cur < i < 13 ==> token[i] != ' ')
      invariant orderId == ValueOf(token[cur + 1..13]) <= MAX_INT
      invariant out[..] == old(out[..])
      invariant cur > 6 ==> multiplier == Pow(36, 12 - cur)
    {
      SlotRead(token, cur, orderId, multiplier);
      var digit := LookUp(token[cur]);
      orderId := orderId + multiplier * digit;
      multiplier := Wrapped(multiplier * 36);
      cur := cur - 1;
    }
    AllRead(token, cur);
    PutDecimal(orderId, out);
  }
}
