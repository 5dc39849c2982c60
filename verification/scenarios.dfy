/**
 * Worked examples on a small concrete store: three products added to a
 * fresh database, one search, and two requests that are refused.
 */
module Scenarios {
  import opened Wrappers
  import opened Text
  import opened Products
  import opened SearchCache
  import opened Inventory

  const Apple := Product(1, "Apple", 5, None)
  const Apricot := Product(2, "apricot", 2, None)
  const Banana := Product(3, "Banana", 1, None)

  /** "Apple", "apricot" and "Banana" added, in that order, to a fresh store. */
  function Stocked(): Store {
    var s1 := AddProduct(Initial, Some("Apple"), Some(5), None).after;
    var s2 := AddProduct(s1, Some("apricot"), Some(2), None).after;
    AddProduct(s2, Some("Banana"), Some(1), None).after
  }

  lemma StockedRows()
    ensures Stocked().rows == [Apple, Apricot, Banana]
    ensures Valid(Stocked())
  {
    AddKeepsValid(Initial, Some("Apple"), Some(5), None);
    var s1 := AddProduct(Initial, Some("Apple"), Some(5), None).after;
    AddKeepsValid(s1, Some("apricot"), Some(2), None);
    var s2 := AddProduct(s1, Some("apricot"), Some(2), None).after;
    AddKeepsValid(s2, Some("Banana"), Some(1), None);
  }

  /** A name spelt in small ASCII letters is its own key. */
  lemma {:induction false} LowerOfSmall(s: string)
    requires forall i :: 0 <= i < |s| ==> 'a' <= s[i] <= 'z'
    ensures Lower(s) == s
    decreases |s|
  {
    if |s| > 0 {
      LowerOfSmall(s[1..]);
      assert s == [s[0]] + s[1..];
    }
  }

  lemma {:induction false} LowerConcat(a: string, b: string)
    ensures Lower(a + b) == Lower(a) + Lower(b)
    decreases |a|
  {
    if |a| > 0 {
      LowerConcat(a[1..], b);
      assert (a + b)[1..] == a[1..] + b;
    } else {
      assert a + b == b;
    }
  }

  lemma AppleKey()
    ensures Key(Apple) == "apple"
  {
    LowerOfSmall("pple");
    assert "Apple"[1..] == "pple";
  }

  lemma ApricotKey()
    ensures Key(Apricot) == "apricot"
  {
    LowerOfSmall("cot");
    LowerOfSmall("apri");
    assert "apricot" == "apri" + "cot";
    LowerConcat("apri", "cot");

  }

  lemma BananaKey()
    ensures Key(Banana) == "banana"
  {
    LowerOfSmall("anana");
    assert "Banana"[1..] == "anana";
  }

  lemma LeadingBlankDropped()
    ensures TrimStart(" AP ") == "AP "
  {
    assert " AP "[1..] == "AP ";
    assert !IsSpace('A');
  }

  lemma TrailingBlankDropped()
    ensures TrimEnd("AP ") == "AP"
  {
    assert "AP "[..2] == "AP";
    assert !IsSpace('P');
  }

  lemma BlankPaddedQuery()
    ensures Normalize(" AP ") == "ap"
  {
    LeadingBlankDropped();
    TrailingBlankDropped();
    assert Lower("AP") == "ap";
  }

  /** The filter of three rows of which only the first two match. */
  lemma FirstTwoMatch(a: Product, b: Product, c: Product, q: string)
    requires Matches(a, q) && Matches(b, q) && !Matches(c, q)
    ensures Matching([a, b, c], q) == [a, b]
  {
    assert [a, b, c][1..] == [b, c] && [b, c][1..] == [c] && [c][1..] == [];
    assert Matching([c], q) == [];
    assert Matching([b, c], q) == [b];
  }

  /** Two rows already in key order are left as they are by the sort. */
  lemma SortInOrder(a: Product, b: Product)
    requires Le(Key(a), Key(b))
    ensures SortByName([a, b]) == [a, b]
  {
    assert [a, b][1..] == [b];
    assert SortByName([b]) == [b];
    InsertInFront(a, [b]);
  }

  lemma StockedPrefixes()
    ensures Matches(Apple, "ap") && Matches(Apricot, "ap") && !Matches(Banana, "ap")
  {
    AppleKey();
    ApricotKey();
    BananaKey();
    PrefixOfLiteral("apple", "ap", "ple");
    PrefixOfLiteral("apricot", "ap", "ricot");
    assert "banana"[0] != "ap"[0];
  }

  lemma PrefixOfLiteral(s: string, q: string, rest: string)
    requires s == q + rest
    ensures StartsWith(s, q)
  {
    assert s[..|q|] == q;
  }

  lemma AppleBeforeApricot()
    ensures Le(Key(Apple), Key(Apricot))
  {
    AppleKey();
    ApricotKey();
    assert Le("ple", "ricot");
  }

  /**
   * A blank-padded upper-case query finds both "ap" products, "Apple"
   * before "apricot", and not "Banana".
   */
  lemma SearchApricotScenario()
    ensures SearchResult(Stocked().rows, " AP ") == [Apple, Apricot]
  {
    StockedRows();
    BlankPaddedQuery();
    StockedPrefixes();
    AppleBeforeApricot();
    FirstTwoMatch(Apple, Apricot, Banana, "ap");
    SortInOrder(Apple, Apricot);
  }

  /** Taking 5 from a product holding 1 is refused and changes nothing. */
  lemma InsufficientScenario()
    ensures UpdateQuantity(Stocked(), 3, Some(-5)).result == Failure(InsufficientQuantity)
    ensures UpdateQuantity(Stocked(), 3, Some(-5)).after == Stocked()
  {
    StockedRows();
    assert Find([Apple, Apricot, Banana], 3) == Some(Banana);
  }

  /** An empty name is refused, and the cache flag stays as it was. */
  lemma EmptyNameScenario()
    ensures AddProduct(Stocked(), Some(""), Some(5), None).result == Failure(InvalidInput)
    ensures AddProduct(Stocked(), Some(""), Some(5), None).after.cache == Stocked().cache
  {
  }

}
