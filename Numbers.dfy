/**
 * Counts in long mode and in the key/value views are grouped in thousands
 * with commas (1871 is shown as "1,871", 727 unchanged); identifiers and all
 * CSV cells keep plain decimal notation.
 */
module Numbers {
  import opened Wrappers
  import opened Text

  /** Three zero-padded digits: the group that follows a comma. */
  function Pad3(k: nat): (s: string)
    requires k < 1000
  {
    [DigitChar(k / 100), DigitChar(k / 10 % 10), DigitChar(k % 10)]
  }

  /** Thousands-grouped decimal notation. */
  function Grouped(n: nat): (s: string)
    decreases n
  {
    if n < 1000 then NatToString(n) else Grouped(n / 1000) + "," + Pad3(n % 1000)
  }

  function DropCommas(s: string): (r: string)
    ensures ',' !in r
  {
    if s == [] then [] else (if s[0] == ',' then [] else [s[0]]) + DropCommas(s[1..])
  }

  /** Reads a grouped count back: the commas are dropped, the digits parsed. */
  function Ungroup(s: string): Option<nat>
  {
    ParseNat(DropCommas(s))
  }

  lemma {:induction false} DropCommasAppend(a: string, b: string)
    ensures DropCommas(a + b) == DropCommas(a) + DropCommas(b)
    decreases |a|
  {
    if a != [] {
      assert (a + b)[1..] == a[1..] + b;
      DropCommasAppend(a[1..], b);
    } else {
      assert a + b == b;
    }
  }

  lemma {:induction false} DropCommasDigits(s: string)
    requires AllDigits(s)
    ensures DropCommas(s) == s
    decreases |s|
  {
    if s != [] {
      DropCommasDigits(s[1..]);
    }
  }

  /** The last three decimal digits of a number of at least four digits are its `Pad3` group. */
  lemma NatToStringSplit(n: nat)
    requires n >= 1000
    ensures NatToString(n) == NatToString(n / 1000) + Pad3(n % 1000)
  {
    var q, r := n / 1000, n % 1000;
    ThousandDigits(n);
    var a, b, c := DigitChar(r / 100), DigitChar(r / 10 % 10), DigitChar(r % 10);
    assert NatToString(n) == NatToString(n / 10) + [c] by { LastDigit(n); }
    assert NatToString(n / 10) == NatToString(n / 100) + [b] by { LastDigit(n / 10); }
    assert NatToString(n / 100) == NatToString(q) + [a] by { LastDigit(n / 100); }
    assert NatToString(q) + [a] + [b] + [c] == NatToString(q) + Pad3(r);
  }

  /** The decimal notation of a number of two or more digits ends in its last digit. */
  lemma LastDigit(n: nat)
    requires n >= 10
    ensures NatToString(n) == NatToString(n / 10) + [DigitChar(n % 10)]
  {
  }

  /** The three lowest decimal digits of a number are those of its remainder modulo 1000. */
  lemma ThousandDigits(n: nat)
    ensures n / 10 / 10 == n / 100 && n / 100 / 10 == n / 1000
    ensures n % 10 == n % 1000 % 10
    ensures n / 10 % 10 == n % 1000 / 10 % 10
    ensures n / 100 % 10 == n % 1000 / 100
  {
    var q, r := n / 1000, n % 1000;
    assert n / 10 == 100 * q + r / 10;
    assert n / 100 == 10 * q + r / 100;
  }

  /** Removing the separators from a grouped count gives its plain decimal notation. */
  lemma {:induction false} GroupedDigits(n: nat)
    ensures DropCommas(Grouped(n)) == NatToString(n)
    decreases n
  {
    if n < 1000 {
      DropCommasDigits(NatToString(n));
    } else {
      GroupedDigits(n / 1000);
      DropGroupSeparator(Grouped(n / 1000), Pad3(n % 1000));
      NatToStringSplit(n);
    }
  }

  lemma DropGroupSeparator(g: string, p: string)
    requires AllDigits(p)
    ensures DropCommas(g + "," + p) == DropCommas(g) + p
  {
    DropThree(g, ",", p);
    DropSeparator();
    DropCommasDigits(p);
  }

  lemma DropThree(a: string, b: string, c: string)
    ensures DropCommas(a + b + c) == DropCommas(a) + DropCommas(b) + DropCommas(c)
  {
    DropCommasAppend(a + b, c);
    DropCommasAppend(a, b);
  }

  lemma DropSeparator()
    ensures DropCommas([',']) == []
  {
    assert [','][1..] == [];
  }

  /** Grouping is lossless: the shown text reads back as the same count. */
  lemma GroupedRoundTrip(n: nat)
    ensures Ungroup(Grouped(n)) == Some(n)
  {
    GroupedDigits(n);
  }

  /**
   * Commas sit exactly every fourth position counted from the right end and
   * never at the front; every other character is a digit.
   */
  lemma {:induction false} GroupedShape(n: nat)
    ensures CommaShaped(Grouped(n))
    decreases n
  {
    if n < 1000 {
      assert |NatToString(n)| <= 3 by { SmallWidth(n); }
      DigitsShaped(NatToString(n));
    } else {
      GroupedShape(n / 1000);
      ShapeExtends(Grouped(n / 1000), Pad3(n % 1000));
    }
  }

  /**
   * Commas sit exactly every fourth position counted from the right end and
   * never at the front; every other character is a digit.
   */
  predicate CommaShaped(s: string)
  {
    |s| > 0 && IsDigit(s[0]) &&
    forall i :: 0 <= i < |s| ==>
      (s[i] == ',' <==> 0 < i && (|s| - i) % 4 == 0) &&
      (s[i] != ',' ==> IsDigit(s[i]))
  }

  lemma DigitsShaped(s: string)
    requires 0 < |s| <= 3 && AllDigits(s)
    ensures CommaShaped(s)
  {
  }

  lemma ShapeExtends(g: string, p: string)
    requires CommaShaped(g) && |p| == 3 && AllDigits(p)
    ensures CommaShaped(g + "," + p)
  {
    var s := g + "," + p;
    forall i | 0 <= i < |s|
      ensures (s[i] == ',' <==> 0 < i && (|s| - i) % 4 == 0) && (s[i] != ',' ==> IsDigit(s[i]))
    {
      if i < |g| {
        assert s[i] == g[i];
        assert (|s| - i) % 4 == (|g| - i) % 4;
      } else if i > |g| {
        assert s[i] == p[i - |g| - 1];
      }
    }
  }

  lemma SmallWidth(n: nat)
    requires n < 1000
    ensures |NatToString(n)| <= 3
  {
    if n >= 10 {
      if n >= 100 {
        assert |NatToString(n / 10)| <= 2 by { assert n / 10 >= 10 && n / 10 / 10 < 10; }
      }
    }
  }

  /** Below one thousand the grouped form is the plain decimal (727 stays "727"). */
  lemma SmallCountUnchanged(n: nat)
    requires n < 1000
    ensures Grouped(n) == NatToString(n) && ',' !in Grouped(n)
  {
  }
}
