/** `convert_to_sec` (py-pkg/uptasticsearch/util.py): a duration such as
    "2m" or "21d" in seconds. The steps run in the source's order: find the
    unit letter, delete every occurrence of it, read the rest as an integer,
    and only then look the unit up. */
module Duration {
  import opened Wrappers
  import opened Text

  datatype DurationError =
    | NoUnit                   // the search for a trailing letter finds nothing (an AttributeError)
    | NotAnInteger(rest: string) // `int()` rejects what is left (a ValueError)
    | UnknownUnit(unit: char)    // the letter is not in the table (a ValueError)

  /** Seconds per unit, as the converter table multiplies them out. */
  const UnitSeconds: map<char, nat> := map[
    's' := 1,
    'm' := 60,
    'h' := 60 * 60,
    'd' := 60 * 60 * 24,
    'w' := 60 * 60 * 24 * 7
  ]

  /** The group of `([A-Za-z])+$`: a repeated group keeps its last
      iteration, so this is the letter just before the `$` position. */
  function UnitLetter(s: string): Option<char>
  {
    var b := Body(s);
    if |b| > 0 && IsLetter(b[|b| - 1]) then Some(b[|b| - 1]) else None
  }

  /** `re.sub(c, '', s)` for a letter `c`: every occurrence goes. */
  function RemoveAll(s: string, c: char): (r: string)
    ensures c !in r
    ensures forall x :: x != c ==> multiset(r)[x] == multiset(s)[x]
    ensures c !in s ==> r == s
  {
    if |s| == 0 then ""
    else
      var init := s[..|s| - 1];
      assert s == init + [s[|s| - 1]];
      RemoveAll(init, c) + (if s[|s| - 1] == c then "" else [s[|s| - 1]])
  }

  /** Deleting a letter keeps the order of what is left: it works piece by
      piece over a concatenation. */
  lemma {:induction false} RemoveAllConcat(a: string, b: string, c: char)
    ensures RemoveAll(a + b, c) == RemoveAll(a, c) + RemoveAll(b, c)
    decreases |b|
  {
    if |b| == 0 {
      assert a + b == a;
    } else {
      var init := b[..|b| - 1];
      assert (a + b)[..|a + b| - 1] == a + init;
      assert (a + b)[|a + b| - 1] == b[|b| - 1];
      RemoveAllConcat(a, init, c);
    }
  }

  /** The strings the model's `int()` accepts: one or more ASCII digits. */
  predicate IsDecimal(s: string) {
    |s| > 0 && AllDigits(s)
  }

  /** The value of a string of decimal digits, leading zeros allowed. */
  function DecimalValue(s: string): (v: nat)
    requires AllDigits(s)
    ensures v == 0 <==> forall i :: 0 <= i < |s| ==> s[i] == '0'
  {
    if |s| == 0 then 0
    else DecimalValue(s[..|s| - 1]) * 10 + (s[|s| - 1] as int - '0' as int)
  }

  /** The shortest decimal spelling of `n`. */
  function DecimalText(n: nat): (s: string)
    ensures IsDecimal(s)
  {
    if n < 10 then [('0' as int + n) as char]
    else DecimalText(n / 10) + [('0' as int + n % 10) as char]
  }

  lemma {:induction false} DecimalRoundTrip(n: nat)
    ensures DecimalValue(DecimalText(n)) == n
  {
    var s := DecimalText(n);
    if n >= 10 {
      DecimalRoundTrip(n / 10);
      assert s[..|s| - 1] == DecimalText(n / 10);
    }
  }

  function ConvertToSec(s: string): (r: Result<nat, DurationError>)
    ensures r == Failure(NoUnit) <==> UnitLetter(s).None?
    ensures r.Success? <==>
      && UnitLetter(s).Some?
      && UnitLetter(s).value in UnitSeconds
      && IsDecimal(RemoveAll(s, UnitLetter(s).value))
    // A success counts the units the rest spells out; a rest `int()` rejects is the error.
    ensures r.Success? ==>
      r.value == DecimalValue(RemoveAll(s, UnitLetter(s).value)) * UnitSeconds[UnitLetter(s).value]
    ensures UnitLetter(s).Some? && !IsDecimal(RemoveAll(s, UnitLetter(s).value)) ==>
      r == Failure(NotAnInteger(RemoveAll(s, UnitLetter(s).value)))
    ensures (UnitLetter(s).Some? && IsDecimal(RemoveAll(s, UnitLetter(s).value))
             && UnitLetter(s).value !in UnitSeconds) ==> r == Failure(UnknownUnit(UnitLetter(s).value))
    ensures r.Failure? && r.error.UnknownUnit? ==>
      && UnitLetter(s) == Some(r.error.unit)
      && r.error.unit !in UnitSeconds
      && IsDecimal(RemoveAll(s, r.error.unit))
  {
    match UnitLetter(s)
    case None => Failure(NoUnit)
    case Some(u) =>
      var rest := RemoveAll(s, u);
      if !IsDecimal(rest) then Failure(NotAnInteger(rest))
      else if u !in UnitSeconds then Failure(UnknownUnit(u))
      else Success(DecimalValue(rest) * UnitSeconds[u])
  }
}

/** What `convert_to_sec` computes, stated for the inputs its docstring
    describes, and the examples of py-pkg/tests/test_util.py. */
module DurationProperties {
  import opened Wrappers
  import opened Text
  import opened Duration

  /** `<digits><unit>` is the digits' value times the unit's seconds. */
  lemma ConvertDigitsUnit(ds: string, u: char)
    requires IsDecimal(ds) && u in UnitSeconds
    ensures ConvertToSec(ds + [u]) == Success(DecimalValue(ds) * UnitSeconds[u])
  {
    SplitUnit(ds, u);
  }

  /** For `<digits><letter>`, the letter is the unit and deleting it leaves
      the digits. */
  lemma SplitUnit(ds: string, u: char)
    requires AllDigits(ds) && IsLetter(u)
    ensures UnitLetter(ds + [u]) == Some(u)
    ensures RemoveAll(ds + [u], u) == ds
  {
    var s := ds + [u];
    assert Body(s) == s;
    assert s[..|s| - 1] == ds;
    forall i | 0 <= i < |ds| ensures ds[i] != u {
      assert IsDigit(ds[i]);
    }
  }

  /** The same for a number written out: n followed by a unit letter is
      `n` times that unit. */
  lemma ConvertNumberUnit(n: nat, u: char)
    requires u in UnitSeconds
    ensures ConvertToSec(DecimalText(n) + [u]) == Success(n * UnitSeconds[u])
  {
    ConvertDigitsUnit(DecimalText(n), u);
    DecimalRoundTrip(n);
  }

  /** A letter outside the table is rejected even though the number parses. */
  lemma ConvertUnknownUnit(ds: string, u: char)
    requires IsDecimal(ds) && IsLetter(u) && u !in UnitSeconds
    ensures ConvertToSec(ds + [u]) == Failure(UnknownUnit(u))
  {
    SplitUnit(ds, u);
  }

  lemma ShortUnitExamples()
    ensures ConvertToSec("1s") == Success(1)
    ensures ConvertToSec("1m") == Success(60)
  {
    SingleDigit('1', 's');
    SingleDigit('1', 'm');
  }

  lemma MinuteHourExamples()
    ensures ConvertToSec("5m") == Success(300)
    ensures ConvertToSec("1h") == Success(3600)
  {
    SingleDigit('5', 'm');
    SingleDigit('1', 'h');
  }

  lemma LongUnitExamples()
    ensures ConvertToSec("1d") == Success(86400)
    ensures ConvertToSec("2w") == Success(1209600)
  {
    SingleDigit('1', 'd');
    SingleDigit('2', 'w');
  }

  lemma SingleDigit(d: char, u: char)
    requires IsDigit(d) && u in UnitSeconds
    ensures ConvertToSec([d, u]) == Success((d as int - '0' as int) * UnitSeconds[u])
  {
    ConvertDigitsUnit([d], u);
    assert [d] + [u] == [d, u];
    assert [d][..0] == "";
  }

  lemma UnknownUnitExample()
    ensures ConvertToSec("1y") == Failure(UnknownUnit('y'))
  {
    ConvertUnknownUnit("1", 'y');
  }

  lemma NotAnIntegerExample()
    ensures ConvertToSec("cactus") == Failure(NotAnInteger("cactu"))
  {
    var s := "cactus";
    assert Body(s) == s;
    assert RemoveAll(s, 's') == "cactu" by {
      assert s[..5] == "cactu";
      assert 's' !in "cactu";
    }
  }
}
