/** Decimal numbers as strconv writes and reads them. */
module Decimal {
  import opened Bytes

  const ZERO: byte := 48
  const MINUS: byte := 45
  const PLUS: byte := 43

  /** The bounds of Go's `int` on a 64-bit machine. */
  const MAX_INT: int := 0x7fff_ffff_ffff_ffff
  const MIN_INT: int := -0x8000_0000_0000_0000

  predicate IsDigit(b: byte) {
    48 <= b <= 57
  }

  predicate AllDigits(s: Bytes) {
    forall i :: 0 <= i < |s| ==> IsDigit(s[i])
  }

  /** strconv.FormatUint(n, 10). */
  function Digits(n: nat): (s: Bytes)
    ensures 0 < |s| && AllDigits(s)
  {
    if n < 10 then [48 + n as byte] else Digits(n / 10) + [48 + (n % 10) as byte]
  }

  function Value(s: Bytes): nat
    requires AllDigits(s)
  {
    if s == [] then 0
    else
      var last := s[|s| - 1];
      assert IsDigit(last);
      10 * Value(s[..|s| - 1]) + (last as int - 48)
  }

  /** strconv.Itoa. */
  function Itoa(n: int): (s: Bytes) {
    if n < 0 then [MINUS] + Digits(-n) else Digits(n)
  }

  /** The integer that a text spells: an optional sign and at least one digit. */
  function Integer(s: Bytes): Option<int> {
    var body := if s != [] && (s[0] == PLUS || s[0] == MINUS) then s[1..] else s;
    if body == [] || !AllDigits(body) then None
    else
      var v: int := Value(body);
      Some(if s[0] == MINUS then -v else v)
  }

  /** strconv.Atoi: an integer that fits an int. */
  function Atoi(s: Bytes): Option<int> {
    match Integer(s)
    case None => None
    case Some(n) => if MIN_INT <= n <= MAX_INT then Some(n) else None
  }

  lemma {:induction false} ValueOfDigits(n: nat)
    ensures Value(Digits(n)) == n
  {
    if 10 <= n {
      ValueOfDigits(n / 10);
      var s := Digits(n);
      assert s[..|s| - 1] == Digits(n / 10);
    } else {
      var s := Digits(n);
      assert s[..|s| - 1] == [];
    }
  }

  /** Reading back what was printed gives the number, exactly when it fits an int. */
  lemma AtoiItoa(n: int)
    ensures Integer(Itoa(n)) == Some(n)
    ensures Atoi(Itoa(n)) == if MIN_INT <= n <= MAX_INT then Some(n) else None
  {
    ValueOfDigits(if n < 0 then -n else n);
    if n < 0 {
      assert Itoa(n)[1..] == Digits(-n);
    } else {
      assert IsDigit(Digits(n)[0]);
    }
  }

  /** Two integers with the same text are the same integer, whatever their size. */
  lemma ItoaInjective(m: int, n: int)
    requires Itoa(m) == Itoa(n)
    ensures m == n
  {
    ValueOfDigits(if m < 0 then -m else m);
    ValueOfDigits(if n < 0 then -n else n);
    assert IsDigit(Digits(if m < 0 then -m else m)[0]);
    assert IsDigit(Digits(if n < 0 then -n else n)[0]);
    if m < 0 && n < 0 {
      assert Itoa(m)[1..] == Digits(-m);
      assert Itoa(n)[1..] == Digits(-n);
    }
  }

  lemma DigitsHaveNone(n: nat, b: byte)
    requires !IsDigit(b)
    ensures Lacks(Digits(n), b)
  {
  }

  lemma ItoaHasNone(n: int, b: byte)
    requires !IsDigit(b) && b != MINUS
    ensures Lacks(Itoa(n), b)
  {
  }
}
