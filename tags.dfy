/** The `xlsx` struct tag of a field: the skip marker "-" or a column number
    read by strconv.Atoi. */
module Tags {
  import opened Values

  /** The range of Go's int on a 64-bit platform; Atoi reports values outside
      it as an error. */
  const MinInt: int := -0x8000_0000_0000_0000
  const MaxInt: int := 0x7fff_ffff_ffff_ffff

  predicate IsDigit(c: char) {
    '0' <= c <= '9'
  }

  predicate AllDigits(s: string) {
    forall i | 0 <= i < |s| :: IsDigit(s[i])
  }

  /** The value of a string of decimal digits, most significant digit first. */
  function DigitsValue(s: string): nat
    requires AllDigits(s)
  {
    if s == [] then 0 else DigitsValue(s[..|s| - 1]) * 10 + (s[|s| - 1] as int - '0' as int)
  }

  /** strconv.Atoi: an optional '+' or '-' followed by one or more decimal
      digits (no underscores, no spaces), whose value fits in a 64-bit int.
      Everything else, the empty string included, is an error (None). */
  function Atoi(s: string): (r: Option<int>)
    ensures r.Some? ==> MinInt <= r.value <= MaxInt
    ensures r.Some? ==> |s| > 0 && IsDigit(s[|s| - 1])
  {
    var signed := |s| > 0 && (s[0] == '-' || s[0] == '+');
    var digits := if signed then s[1..] else s;
    if |digits| == 0 || !AllDigits(digits) then None
    else
      var v: int := DigitsValue(digits);
      var x := if signed && s[0] == '-' then -v else v;
      if MinInt <= x <= MaxInt then Some(x) else None
  }

  /** The shortest decimal rendering of a natural number. */
  function Digits(n: nat): string {
    if n < 10 then [('0' as int + n) as char]
    else Digits(n / 10) + [('0' as int + n % 10) as char]
  }

  /** strconv.Itoa, the formatting that Atoi inverts. */
  function Itoa(x: int): string {
    if x < 0 then "-" + Digits(-x) else Digits(x)
  }

  lemma {:induction false} DigitsValueOf(n: nat)
    ensures |Digits(n)| > 0 && AllDigits(Digits(n)) && DigitsValue(Digits(n)) == n
  {
    var s := Digits(n);
    if n >= 10 {
      DigitsValueOf(n / 10);
      assert s[..|s| - 1] == Digits(n / 10);
    }
  }

  /** Atoi on a string of digits without a sign. */
  lemma AtoiUnsigned(s: string)
    requires |s| > 0 && AllDigits(s)
    ensures Atoi(s) == if DigitsValue(s) <= MaxInt then Some(DigitsValue(s)) else None
  {
    assert IsDigit(s[0]);
  }

  /** Atoi on '-' followed by digits. */
  lemma AtoiMinus(s: string)
    requires |s| > 1 && s[0] == '-' && AllDigits(s[1..])
    ensures var v: int := DigitsValue(s[1..]); Atoi(s) == if MinInt <= -v then Some(-v) else None
  {
  }

  /** Atoi reads back every int that Itoa writes. */
  lemma AtoiItoa(x: int)
    requires MinInt <= x <= MaxInt
    ensures Atoi(Itoa(x)) == Some(x)
  {
    if x < 0 {
      DigitsValueOf(-x);
      assert Itoa(x)[1..] == Digits(-x);
      AtoiMinus(Itoa(x));
    } else {
      DigitsValueOf(x);
      AtoiUnsigned(Itoa(x));
    }
  }

  /** A number just outside the int range is an error, not a wrapped value. */
  lemma AtoiOverflow()
    ensures Atoi(Itoa(MaxInt + 1)) == None
    ensures Atoi(Itoa(MinInt - 1)) == None
  {
    DigitsValueOf(MaxInt + 1);
    AtoiUnsigned(Itoa(MaxInt + 1));
    DigitsValueOf(-(MinInt - 1));
    assert Itoa(MinInt - 1)[1..] == Digits(-(MinInt - 1));
    AtoiMinus(Itoa(MinInt - 1));
  }

  /** What a field's `xlsx` tag asks for. */
  datatype Tag = Skip | Column(pos: int) | Invalid

  function ParseTag(tag: string): (r: Tag)
    ensures r == Skip <==> tag == "-"
    ensures r == Invalid <==> tag != "-" && Atoi(tag) == None
    ensures r.Column? ==> Atoi(tag) == Some(r.pos)
  {
    if tag == "-" then Skip
    else match Atoi(tag)
      case Some(p) => Column(p)
      case None => Invalid
  }

  /** Every column number written in decimal is read back as that column. */
  lemma ColumnTagRoundTrip(p: int)
    requires MinInt <= p <= MaxInt
    ensures ParseTag(Itoa(p)) == Column(p)
  {
    AtoiItoa(p);
  }

  /** The tags of typical fields, among them the empty tag of a field
      without an `xlsx` key, which is an error. */
  lemma TagExamples()
    ensures ParseTag("") == Invalid && ParseTag("xyz") == Invalid && ParseTag("1_0") == Invalid
    ensures ParseTag("+") == Invalid && ParseTag(" 1") == Invalid
    ensures ParseTag("-") == Skip
    ensures ParseTag("0") == Column(0) && ParseTag("12") == Column(12)
    ensures ParseTag("+7") == Column(7) && ParseTag("-3") == Column(-3)
  {
    assert !AllDigits("xyz") by { assert !IsDigit("xyz"[0]); }
    assert !AllDigits("1_0") by { assert !IsDigit("1_0"[1]); }
    assert !AllDigits(" 1") by { assert !IsDigit(" 1"[0]); }
    assert "+7"[1..] == "7";
    assert "-3"[1..] == "3";
    assert "12"[..1] == "1";
  }
}
