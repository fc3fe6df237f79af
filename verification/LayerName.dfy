/**
 The bounded, exact parser of residual node names. A name is a fixed-size C buffer;
 each `char` stands for one of its bytes.
 */
module LayerName {
  import opened Wrappers
  import Decimal

  const PREFIX: string := "l_out-"

  // The index of the first NUL byte.
  function Terminator(name: string): (end: Option<nat>)
    ensures end.Some? ==> end.value < |name| && name[end.value] == '\0' && '\0' !in name[..end.value]
    ensures end.None? ==> '\0' !in name
  {
    if name == [] then None
    else if name[0] == '\0' then Some(0)
    else
      match Terminator(name[1..])
      case None => None
      case Some(end) =>
        assert name[..end + 1] == [name[0]] + name[1..][..end];
        Some(end + 1)
  }

  // One step of the checked 32-bit fold over the digits.
  function Accumulate(value: nat, c: char): Option<nat> {
    if c < '0' || c as int - '0' as int > 9 then None
    else if value * 10 > U32_MAX then None
    else
      var sum := value * 10 + (c as int - '0' as int);
      if sum > U32_MAX then None else Some(sum)
  }

  function Fold(value: nat, digits: string): Option<nat>
    decreases digits
  {
    if digits == [] then Some(value)
    else
      match Accumulate(value, digits[0])
      case None => None
      case Some(next) => Fold(next, digits[1..])
  }

  function LayerFromName(buffer: string): Option<nat> {
    match Terminator(buffer)
    case None => None
    case Some(end) =>
      var name := buffer[..end];
      if |name| <= |PREFIX| || name[..|PREFIX|] != PREFIX then None
      else
        var digits := name[|PREFIX|..];
        if |digits| > 1 && digits[0] == '0' then None else Fold(0, digits)
  }

  // The buffer holds exactly the text `s`, NUL-terminated.
  predicate Holds(buffer: string, s: string) {
    |s| < |buffer| && buffer[..|s|] == s && buffer[|s|] == '\0'
  }

  lemma {:induction false} FoldSnoc(value: nat, digits: string, c: char)
    ensures Fold(value, digits + [c]) ==
            match Fold(value, digits) { case None => None case Some(v) => Accumulate(v, c) }
    decreases digits
  {
    if digits == [] {
      assert Fold(value, [c]) == match Accumulate(value, c) { case None => None case Some(v) => Fold(v, []) };
      assert digits + [c] == [c];
    } else {
      assert (digits + [c])[1..] == digits[1..] + [c];
      match Accumulate(value, digits[0]) {
        case None =>
        case Some(next) => FoldSnoc(next, digits[1..], c);
      }
    }
  }

  lemma {:induction false} FoldPrint(n: nat)
    requires n <= U32_MAX
    ensures Fold(0, Decimal.Print(n)) == Some(n)
  {
    if n < 10 {
      FoldSnoc(0, [], Decimal.Digit(n));
      assert [] + [Decimal.Digit(n)] == Decimal.Print(n);
    } else {
      FoldPrint(n / 10);
      FoldSnoc(0, Decimal.Print(n / 10), Decimal.Digit(n % 10));
    }
  }

  lemma {:induction false} FoldOnlyPrint(digits: string, n: nat)
    requires digits != [] && (|digits| > 1 ==> digits[0] != '0')
    requires Fold(0, digits) == Some(n)
    ensures n <= U32_MAX && digits == Decimal.Print(n)
  {
    var last := |digits| - 1;
    assert digits == digits[..last] + [digits[last]];
    FoldSnoc(0, digits[..last], digits[last]);
    if last > 0 {
      var m := Fold(0, digits[..last]).value;
      FoldOnlyPrint(digits[..last], m);
      assert Decimal.Print(0) == "0";
      assert m > 0;
    }
  }

  // A buffer parses to `n` exactly when it is the terminated canonical node name of a 32-bit `n`.
  lemma ParsesExactly(buffer: string, n: nat)
    ensures LayerFromName(buffer) == Some(n) <==> n <= 0xFFFF_FFFF && Holds(buffer, "l_out-" + Decimal.Print(n))
  {
    var text := PREFIX + Decimal.Print(n);
    if LayerFromName(buffer) == Some(n) {
      var end := Terminator(buffer).value;
      FoldOnlyPrint(buffer[..end][|PREFIX|..], n);
      assert buffer[..end] == PREFIX + buffer[..end][|PREFIX|..];
    }
    if n <= U32_MAX && Holds(buffer, text) {
      var end := Terminator(buffer).value;
      forall i | 0 <= i < |text| ensures buffer[i] != '\0' {
        assert buffer[i] == buffer[..|text|][i] == text[i];
        if i >= |PREFIX| {
          assert text[i] == Decimal.Print(n)[i - |PREFIX|];
          assert text[i] in Decimal.Print(n);
        }
      }
      assert end <= |text|;
      assert text[..|PREFIX|] == PREFIX && text[|PREFIX|..] == Decimal.Print(n);
      FoldPrint(n);
    }
  }
}
