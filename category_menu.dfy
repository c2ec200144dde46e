/** The numbered category list sent with the category prompt. It numbers
    `VALID_CATEGORIES` from 1 in declared order, the same order the category
    validator resolves an index against. */
module CategoryMenu {
  import opened JsStrings
  import opened JsNumbers
  import opened Validators

  /** `${i + 1}. ${cat}` for the category at position `i`. */
  function MenuLine(i: nat): (line: string)
    requires i < |Categories|
  {
    NatToDecimal(i + 1) + (". " + Categories[i])
  }

  /** `VALID_CATEGORIES.map((cat, i) => ...)`: one line per category. */
  function MenuLines(): (lines: seq<string>)
    ensures |lines| == |Categories|
    ensures forall i :: 0 <= i < |lines| ==> lines[i] == MenuLine(i)
  {
    seq(|Categories|, i requires 0 <= i < |Categories| => MenuLine(i))
  }

  /** `... .join('\n')`: the menu text. */
  function Menu(): string {
    Join(MenuLines(), '\n')
  }

  /** No category name holds a line break. */
  lemma CategoriesAreSingleLine(i: nat)
    requires i < |Categories|
    ensures '\n' !in Categories[i]
  {
    var c := Categories[i];
    assert forall k :: 0 <= k < |c| ==> c[k] != '\n' by {
      if i == 0 { assert c == "Subscriptions"; }
      else if i == 1 { assert c == "Shopping"; }
      else if i == 2 { assert c == "Transport"; }
      else if i == 3 { assert c == "Food"; }
      else if i == 4 { assert c == "Groceries"; }
      else if i == 5 { assert c == "Medical"; }
      else if i == 6 { assert c == "Misc"; }
      else if i == 7 { assert c == "Taxes"; }
      else if i == 8 { assert c == "Utilities"; }
      else if i == 9 { assert c == "Entertainment"; }
      else if i == 10 { assert c == "Fitness"; }
      else { assert c == "Travel"; }
    }
  }

  /** The menu text splits back into its lines, one per category, in the
      declared order. */
  lemma MenuSplitsIntoLines()
    ensures Split(Menu(), '\n') == MenuLines()
    ensures |Split(Menu(), '\n')| == |Categories|
  {
    var lines := MenuLines();
    forall i | 0 <= i < |lines| ensures '\n' !in lines[i] {
      var digits := NatToDecimal(i + 1);
      CategoriesAreSingleLine(i);
      assert forall k :: 0 <= k < |digits| ==> IsDigitOf(digits[k], 10);
      assert lines[i] == digits + (". " + Categories[i]);
    }
    SplitJoin(lines, '\n');
  }

  /** Even the whole menu line, as shown, selects its category. */
  lemma MenuLineSelectsItsCategory(i: nat)
    requires i < |Categories|
    ensures ResolveCategory(Text(MenuLine(i))) == Some(Categories[i])
  {
    var rest := ". " + Categories[i];
    assert rest[0] == '.';
    NumberSelects(i, rest);
  }
}
