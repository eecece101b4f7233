/**
 * The captured token, kept exact instead of being turned into a float: the
 * numerals Python's `float` accepts among strings of digits and dots.
 */
module Decimals {
  import opened Wrappers
  import opened Text

  /** A non-negative decimal numeral: whole-part digits, then optionally a point and fraction digits. */
  datatype Decimal = Decimal(whole: string, fraction: Option<string>)

  predicate AllDigits(s: string)
  {
    forall k :: 0 <= k < |s| ==> IsDigit(s[k])
  }

  /** At least one digit in all, and digits only on either side of the point. */
  predicate WellFormed(d: Decimal)
  {
    AllDigits(d.whole)
    && (d.fraction.Some? ==> AllDigits(d.fraction.value))
    && (d.whole != [] || (d.fraction.Some? && d.fraction.value != []))
  }

  /** The numeral as written. */
  function Render(d: Decimal): string
  {
    match d.fraction
    case None => d.whole
    case Some(f) => d.whole + "." + f
  }

  /** The index of the first '.', or the length when there is none. */
  function DotIndex(s: string): (r: nat)
    ensures r <= |s| && '.' !in s[..r]
    ensures r < |s| ==> s[r] == '.'
  {
    if s == [] || s[0] == '.' then 0
    else
      assert s[1..][..DotIndex(s[1..])] == s[1..1 + DotIndex(s[1..])];
      1 + DotIndex(s[1..])
  }

  /**
   * `float(token)`: one optional point between digit runs, with at least one
   * digit; anything else raises ValueError.
   */
  function ParseDecimal(tok: string): (r: Option<Decimal>)
    ensures r.Some? ==> WellFormed(r.value) && Render(r.value) == tok
  {
    var k := DotIndex(tok);
    var w := tok[..k];
    if k == |tok| then
      if w != [] && AllDigits(w) then Some(Decimal(w, None)) else None
    else
      var f := tok[k + 1..];
      assert tok == w + "." + f;
      if AllDigits(w) && AllDigits(f) && (w != [] || f != []) then Some(Decimal(w, Some(f))) else None
  }

  /** Reading back a rendered numeral gives the numeral. */
  lemma ParseRender(d: Decimal)
    requires WellFormed(d)
    ensures ParseDecimal(Render(d)) == Some(d)
  {
    var s := Render(d);
    var w := d.whole;
    match d.fraction {
      case None =>
        assert s[..|w|] == w;
      case Some(f) =>
        assert s[|w|] == '.';
        assert s[..|w|] == w;
        assert s[|w| + 1..] == f;
    }
  }

  /** Only digits and points, at most one point, and at least one digit. */
  predicate NumeralShape(tok: string)
  {
    (forall k :: 0 <= k < |tok| ==> IsDigit(tok[k]) || tok[k] == '.')
    && (forall i, j :: 0 <= i < j < |tok| && tok[i] == '.' ==> tok[j] != '.')
    && (exists k :: 0 <= k < |tok| && IsDigit(tok[k]))
  }

  /** A token is accepted exactly when it has digits and points only, at most one point, and a digit. */
  lemma ParseDecimalAccepts(tok: string)
    ensures ParseDecimal(tok).Some? <==> NumeralShape(tok)
  {
    if ParseDecimal(tok).Some? {
      AcceptedHasShape(tok);
    }
    if NumeralShape(tok) {
      ShapeIsAccepted(tok);
    }
  }

  lemma AcceptedHasShape(tok: string)
    requires ParseDecimal(tok).Some?
    ensures NumeralShape(tok)
  {
    var d := ParseDecimal(tok).value;
    var w := d.whole;
    match d.fraction {
      case None =>
        assert tok == w;
        assert IsDigit(tok[0]);
      case Some(f) =>
        assert tok == w + "." + f;
        assert forall j :: 0 <= j < |w| ==> tok[j] == w[j];
        assert forall j :: |w| < j < |tok| ==> tok[j] == f[j - |w| - 1];
        if w != [] {
          assert IsDigit(tok[0]);
        } else {
          assert IsDigit(tok[1]);
        }
    }
  }

  lemma ShapeIsAccepted(tok: string)
    requires NumeralShape(tok)
    ensures ParseDecimal(tok).Some?
  {
    var k := DotIndex(tok);
    var w := tok[..k];
    assert AllDigits(w) by {
      forall j | 0 <= j < |w| ensures IsDigit(w[j]) {
        assert w[j] == tok[j];
        assert tok[j] != '.';
      }
    }
    var p :| 0 <= p < |tok| && IsDigit(tok[p]);
    if k < |tok| {
      var f := tok[k + 1..];
      assert AllDigits(f) by {
        forall j | 0 <= j < |f| ensures IsDigit(f[j]) {
          assert f[j] == tok[k + 1 + j];
        }
      }
      assert p < k || p > k;
      assert w != [] || f != [];
    } else {
      assert w == tok;
    }
  }

  /** A token with two points is rejected. */
  lemma TwoPointsRejected(tok: string, i: nat, j: nat)
    requires i < j < |tok| && tok[i] == '.' && tok[j] == '.'
    ensures ParseDecimal(tok) == None
  {
    ParseDecimalAccepts(tok);
  }

  /** A token without a digit is rejected. */
  lemma NoDigitRejected(tok: string)
    requires forall k :: 0 <= k < |tok| ==> !IsDigit(tok[k])
    ensures ParseDecimal(tok) == None
  {
    ParseDecimalAccepts(tok);
  }

  /** Two points, or no digit, are rejected. */
  lemma MalformedTokens()
    ensures ParseDecimal("1.2.3") == None
    ensures ParseDecimal(".") == None
    ensures ParseDecimal("0.25") == Some(Decimal("0", Some("25")))
  {
    TwoPointsRejected("1.2.3", 1, 3);
    NoDigitRejected(".");
    ParseRender(Decimal("0", Some("25")));
    assert Render(Decimal("0", Some("25"))) == "0.25";
  }
}
