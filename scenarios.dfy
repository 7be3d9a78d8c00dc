/** Worked examples of the cleaning pass on concrete rows. */
module Scenarios {

  import opened Wrappers
  import opened FieldRules
  import opened Records
  import opened RowTransform
  import opened RowFilter
  import opened CleanPass

  /* Concrete lookups in the rule table. The split into three maps and into
     one fact per lemma serves only to keep the verifier's string
     comparisons small; the program has a single table. */

  lemma BicIsARegistrationColumn()
    ensures "bic" in RegistrationRules && RegistrationRules["bic"] == 20
    ensures "bic" !in AddressRules
  {
  }

  lemma BicIsNotAPropertyColumn()
    ensures "bic" !in OwnerAndPropertyRules
  {
  }

  lemma BicRule()
    ensures RuleFor("bic") == Some(20) && !IsDecimalField("bic")
  {
    BicIsARegistrationColumn();
    BicIsNotAPropertyColumn();
  }

  lemma DistritoIsARegistrationColumn()
    ensures "distrito" in RegistrationRules && RegistrationRules["distrito"] == 5
    ensures "distrito" !in AddressRules
  {
  }

  lemma DistritoIsNotAPropertyColumn()
    ensures "distrito" !in OwnerAndPropertyRules
  {
  }

  lemma DistritoRule()
    ensures RuleFor("distrito") == Some(5) && !IsDecimalField("distrito")
  {
    DistritoIsARegistrationColumn();
    DistritoIsNotAPropertyColumn();
  }

  lemma BicValueIsCut()
    ensures TransformValue("bic", "12345678901234567890123") == "12345678901234567890"
  {
    BicRule();
    assert TruncateToRule("bic", "12345678901234567890123") == "12345678901234567890";
  }

  /** A value already within its rule, in a column that is not decimal, is
      kept as it is. */
  lemma DistritoValueFits(value: string)
    requires |value| <= 5
    ensures TransformValue("distrito", value) == value
  {
    DistritoRule();
  }

  lemma BicRowIsCut()
    ensures TransformedRow([Column("bic", "12345678901234567890123"), Column("distrito", "ABCDE")])
              == [Column("bic", "12345678901234567890"), Column("distrito", "ABCDE")]
  {
    var row := [Column("bic", "12345678901234567890123"), Column("distrito", "ABCDE")];
    var out := [Column("bic", "12345678901234567890"), Column("distrito", "ABCDE")];
    BicValueIsCut();
    DistritoValueFits("ABCDE");
    assert TransformColumn(row[0]) == out[0];
    assert TransformColumn(row[1]) == out[1];
  }

  lemma CutBicRowIsKept()
    ensures KeepRow([Column("bic", "12345678901234567890"), Column("distrito", "ABCDE")])
  {
    var out := [Column("bic", "12345678901234567890"), Column("distrito", "ABCDE")];
    assert !JsText.IsWhitespace(out[1].value[0]);
  }

  /** A 23-character `bic` is cut to its 20-character rule; a 5-character
      `distrito` already fits; the row is kept. */
  lemma LongBicIsCut()
    ensures var row := [Column("bic", "12345678901234567890123"), Column("distrito", "ABCDE")];
            CleanRows([row]) == [[Column("bic", "12345678901234567890"), Column("distrito", "ABCDE")]]
  {
    BicRowIsCut();
    CutBicRowIsKept();
    CleanSingleRow([Column("bic", "12345678901234567890123"), Column("distrito", "ABCDE")]);
  }

  lemma ValorM2Rule()
    ensures RuleFor("valor_m2") == Some(20) && IsDecimalField("valor_m2")
  {
  }

  lemma ValorM2Fits(value: string)
    requires |value| <= 20
    ensures TransformValue("valor_m2", value) == ClampDecimal(value)
  {
    ValorM2Rule();
  }

  /** A `valor_m2` value that fits its 20-code-unit rule and has one dot
      loses the digits after the second decimal place (`1234.56789` becomes
      `1234.56`). */
  lemma ValorM2IsClamped(integerPart: string, decimalPart: string)
    requires '.' !in integerPart && '.' !in decimalPart
    requires |integerPart| + 1 + |decimalPart| <= 20 && 2 < |decimalPart|
    ensures TransformValue("valor_m2", integerPart + "." + decimalPart) == integerPart + "." + decimalPart[..2]
  {
    ValorM2Fits(integerPart + "." + decimalPart);
    ClampDecimalSingleDot(integerPart, decimalPart);
  }

  /** A decimal part longer than two code units is cut and everything
      after it dropped, later dots included (`1.2345.6` becomes `1.23`). */
  lemma ClampDecimalDropsLaterDots(integerPart: string, decimalPart: string, tail: string)
    requires '.' !in integerPart && '.' !in decimalPart && 2 < |decimalPart|
    ensures ClampDecimal(integerPart + "." + decimalPart + "." + tail) == integerPart + "." + decimalPart[..2]
  {
    ClampDecimalPieces(integerPart, decimalPart, "." + tail);
    assert integerPart + "." + decimalPart + ("." + tail) == integerPart + "." + decimalPart + "." + tail;
  }

  /** The decimal part is only the piece between the first and the second
      dot: when it is short, the value is left alone however many digits
      follow the second dot (`1.23.456` stays as it is). */
  lemma ClampDecimalKeepsShortFirstPiece(integerPart: string, decimalPart: string, tail: string)
    requires '.' !in integerPart && '.' !in decimalPart && |decimalPart| <= 2
    ensures var value := integerPart + "." + decimalPart + "." + tail;
            ClampDecimal(value) == value
  {
    ClampDecimalPieces(integerPart, decimalPart, "." + tail);
    assert integerPart + "." + decimalPart + ("." + tail) == integerPart + "." + decimalPart + "." + tail;
  }

  /** `iptu` is limited to 10 code units and is a decimal column. */
  lemma IptuRule()
    ensures RuleFor("iptu") == Some(10)
    ensures IsDecimalField("iptu")
  {
  }

  /** A row whose values are empty or white space only is dropped. */
  lemma BlankRowIsDropped()
    ensures CleanRows([[Column("bic", ""), Column("distrito", "   ")]]) == []
  {
    var row := [Column("bic", ""), Column("distrito", "   ")];
    assert JsText.IsBlank(row[0].value) && JsText.IsBlank(row[1].value);
    BlankRowStaysBlank(row);
  }

  lemma DistritoValueIsCut(value: string)
    requires 5 < |value|
    ensures TransformValue("distrito", value) == value[..5]
  {
    DistritoRule();
  }

  /** The filter looks at the transformed row: a `distrito` value whose
      first five code units are white space and whose visible characters all
      lie past its 5-code-unit rule is cut to a blank value, and the row,
      which would have passed the filter as it came in, is dropped. */
  lemma TruncationCanBlankARow(value: string)
    requires 5 < |value| && JsText.IsBlank(value[..5]) && !JsText.IsBlank(value)
    ensures KeepRow([Column("distrito", value)])
    ensures CleanRows([[Column("distrito", value)]]) == []
  {
    var row := [Column("distrito", value)];
    DistritoValueIsCut(value);
    assert TransformedRow(row)[0].value == value[..5];
    CleanSingleRow(row);
  }
}
