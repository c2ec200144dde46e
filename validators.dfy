/** The field validators of the message handler: the two fixed enumerations
    (categories and payers) and, per field, the rule that accepts a raw text
    and what it turns that text into. */
module Validators {
  import opened JsStrings
  import opened JsNumbers

  /** `VALID_CATEGORIES`, in declared order; that order is also the index
      space of the numbered category menu. */
  const Categories: seq<string> := [
    "Subscriptions", "Shopping", "Transport", "Food", "Groceries", "Medical",
    "Misc", "Taxes", "Utilities", "Entertainment", "Fitness", "Travel"
  ]

  /** `VALID_NAMES`: who can have paid. */
  const Names: seq<string> := ["Sam", "Nat", "Shared"]

  /** What is stored as `transaction_amount`: the decimal literal
      `parseFloat` read, kept as text. The double it rounds to is not
      modelled. */
  datatype Amount = Amount(literal: string)

  predicate IsAsciiDigit(c: char) {
    '0' <= c <= '9'
  }

  /** `/^\d{4}-\d{2}-\d{2}$/.test(text)`: exactly ten characters, digits
      around two dashes. No calendar check is made. */
  predicate IsDatePattern(t: MsgText) {
    var s := ToJsString(t);
    |s| == 10 && s[4] == '-' && s[7] == '-'
    && IsAsciiDigit(s[0]) && IsAsciiDigit(s[1]) && IsAsciiDigit(s[2]) && IsAsciiDigit(s[3])
    && IsAsciiDigit(s[5]) && IsAsciiDigit(s[6]) && IsAsciiDigit(s[8]) && IsAsciiDigit(s[9])
  }

  /** A text of the date pattern splits on '-' into year, month and day. */
  lemma DatePatternSplit(s: string)
    requires IsDatePattern(Text(s))
    ensures Split(s, '-') == [s[..4], s[5..7], s[8..]]
  {
    var parts := [s[..4], s[5..7], s[8..]];
    forall i | 0 <= i < 3 ensures '-' !in parts[i] {
      assert AllDigitsOf(parts[i], 10);
    }
    assert parts[1..][1..] == [s[8..]];
    assert Join(parts[1..], '-') == s[5..7] + ['-'] + s[8..];
    assert s == s[..4] + ['-'] + (s[5..7] + ['-'] + s[8..]);
    SplitJoin(parts, '-');
  }

  /** `parseInt(text.split('-')[1])`: the month of a date-pattern text. It is
      the two-digit number between the dashes, not checked to lie in 1..12. */
  function DateMonth(s: string): (m: int)
    requires IsDatePattern(Text(s))
    ensures m == 10 * DigitValue(s[5]) + DigitValue(s[6])
    ensures 0 <= m <= 99
  {
    DatePatternSplit(s);
    TwoDigitMonth(s[5..7]);
    ParseInt(Text(Split(s, '-')[1])).value
  }

  /** `parseInt` of two ASCII digits is their two-digit value. */
  lemma TwoDigitMonth(ds: string)
    requires |ds| == 2 && IsAsciiDigit(ds[0]) && IsAsciiDigit(ds[1])
    ensures ParseInt(Text(ds)) == Some(10 * DigitValue(ds[0]) + DigitValue(ds[1]))
  {
    assert AllDigitsOf(ds, 10);
    ParseIntOfUnsigned(ds);
    assert Magnitude(ds) == Some(DigitsValue(ds, 10)) by {
      DigitPrefixOfDigits(ds, [], 10);
      assert ds + [] == ds;
    }
    assert DigitsValue(ds, 10) == 10 * DigitValue(ds[0]) + DigitValue(ds[1]) by {
      var first := ds[..1];
      assert first[..0] == [] && first[0] == ds[0];
      assert DigitsValue(first, 10) == DigitValue(ds[0]);
      assert ds[..|ds| - 1] == first;
    }
  }

  /** `parseFloat(text)` followed by the `isNaN` test: the amount, or
      `None` when the text is rejected (see `ParseFloatIsNaNIff`). */
  function ParseAmount(t: MsgText): Option<Amount> {
    match ParseFloat(t)
    case None => None
    case Some(lit) => Some(Amount(lit))
  }

  /** `VALID_CATEGORIES[parseInt(text) - 1] || text`, then the `includes`
      test: a 1-based index into the list or the literal name. */
  function ResolveCategory(t: MsgText): (r: Option<string>)
    ensures r.Some? ==> Includes(Categories, r.value)
    ensures ParseInt(t).Some? && 1 <= ParseInt(t).value <= |Categories| ==> r == Some(Categories[ParseInt(t).value - 1])
    ensures r.None? ==>
      !(t.Text? && Includes(Categories, t.s)) && (ParseInt(t).None? || !(1 <= ParseInt(t).value <= |Categories|))
  {
    var indexed := ParseInt(t);
    if indexed.Some? && 1 <= indexed.value <= |Categories| then
      IncludesEntry(Categories, indexed.value - 1);
      Some(Categories[indexed.value - 1])
    else if t.Text? && Includes(Categories, t.s) then Some(t.s)
    else None
  }

  /** A category's own name selects that category: every name starts with
      a capital letter, so none of them also reads as an index. */
  lemma NameSelectsItself(i: nat)
    requires i < |Categories|
    ensures ParseInt(Text(Categories[i])).None?
    ensures ResolveCategory(Text(Categories[i])) == Some(Categories[i])
  {
    var c := Categories[i];
    assert |c| > 0 && 'A' <= c[0] <= 'Z';
    ParseIntOfWord(c);
    IncludesEntry(Categories, i);
  }

  /** A text that starts with the decimal number of a category, followed
      by anything but a digit, selects that category ("2", "2. Shopping"). */
  lemma NumberSelects(i: nat, rest: string)
    requires i < |Categories|
    requires rest == [] || !IsDigitOf(rest[0], 10)
    ensures ResolveCategory(Text(NatToDecimal(i + 1) + rest)) == Some(Categories[i])
  {
    ParseIntOfDecimal(i + 1, rest);
  }

  /** The decimal number of a category on its own selects it. */
  lemma MenuNumberSelects(i: nat)
    requires i < |Categories|
    ensures ResolveCategory(Text(NatToDecimal(i + 1))) == Some(Categories[i])
  {
    NumberSelects(i, []);
    assert NatToDecimal(i + 1) + [] == NatToDecimal(i + 1);
  }

  /** An amount given as digits followed by text that cannot continue a
      number is those digits; the rest is ignored ("12abc" is 12). */
  lemma AmountOfDigits(ds: string, rest: string)
    requires |ds| > 0 && AllDigitsOf(ds, 10)
    requires rest == [] || !(IsDigitOf(rest[0], 10) || rest[0] == '.' || rest[0] == 'e' || rest[0] == 'E')
    ensures ParseAmount(Text(ds + rest)) == Some(Amount(ds))
  {
    var s := ds + rest;
    assert s[0] == ds[0];
    assert TrimStart(s) == s;
    DecimalLiteralOfDigits(ds, rest);
    assert s[..|ds|] == ds;
    assert ParseFloat(Text(s)) == Some(ds);
  }

  /** An amount with a fractional part is read whole. */
  lemma AmountOfDecimal(ip: string, fp: string)
    requires |ip| > 0 && AllDigitsOf(ip, 10) && |fp| > 0 && AllDigitsOf(fp, 10)
    ensures ParseAmount(Text(ip + (['.'] + fp))) == Some(Amount(ip + (['.'] + fp)))
  {
    var s := ip + (['.'] + fp);
    assert s[0] == ip[0];
    assert TrimStart(s) == s;
    DecimalLiteralOfFraction(ip, fp);
    assert s[..|s|] == s;
  }

  /** A word is not an amount: a text starting with a lower-case letter
      ("abc") is rejected. */
  lemma WordIsNotAnAmount(s: string)
    requires |s| > 0 && 'a' <= s[0] <= 'z'
    ensures ParseAmount(Text(s)).None?
  {
    assert !IsStrWhiteSpace(s[0]);
    assert TrimStart(s) == s;
    assert !StartsWith(s, "Infinity") by {
      assert s[0] != 'I';
    }
    assert !NumericStart(s);
    ParseFloatIsNaNIff(Text(s));
  }

  /** As written, the amount is only checked not to be NaN: a negative
      amount passes. */
  lemma NegativeAmountAccepted(ds: string)
    requires |ds| > 0 && AllDigitsOf(ds, 10)
    ensures ParseAmount(Text(['-'] + ds)).Some?
  {
    var s := ['-'] + ds;
    assert TrimStart(s) == s;
    assert s[1..] == ds;
    assert NumericStart(s);
    ParseFloatIsNaNIff(Text(s));
  }

  /** Nor is the amount checked to be finite: a text starting with
      "Infinity" passes. */
  lemma InfiniteAmountAccepted(s: string)
    requires StartsWith(s, "Infinity")
    ensures ParseAmount(Text(s)).Some?
  {
    assert s[0] == s[..8][0] == 'I';
    assert TrimStart(s) == s;
    assert NumericStart(s);
    ParseFloatIsNaNIff(Text(s));
  }

  /** `VALID_NAMES.includes(text)`: exact, case-sensitive membership. */
  predicate IsPayer(t: MsgText) {
    t.Text? && Includes(Names, t.s)
  }

  /** The payer must match exactly: "sam" is not "Sam". */
  lemma PayerIsCaseSensitive()
    ensures IsPayer(Text("Sam")) && !IsPayer(Text("sam"))
  {
    var listed, lower := "Sam", "sam";
    assert Includes(Names, listed);
    assert !Includes(Names, lower) by {
      assert lower != Names[0];
    }
  }

  /** `text === 'skip' ? 'NULL' : text`: the stored details. */
  function DetailsValue(t: MsgText): (d: MsgText)
    ensures t == Text("skip") ==> d == Text("NULL")
    ensures t != Text("skip") ==> d == t
  {
    if t == Text("skip") then Text("NULL") else t
  }
}
