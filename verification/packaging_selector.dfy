/**
 The gift-packaging selector: a fixed table of options, and the price of a
 selection, which is the sum of the prices of the options whose NAME matches
 each of the four choices (first match in the table, across all kinds).
 */
module PackagingSelector {
  import opened Wrappers
  import opened CartStore

  datatype OptionKind = Box | Cloth | Cushion | Ribbon

  datatype PackagingOption = PackagingOption(kind: OptionKind, name: string, price: int)

  /** The table, prices in cents. */
  const Options: seq<PackagingOption> := [
    PackagingOption(Box, "Velvet Black", 500),
    PackagingOption(Box, "Royal Blue", 500),
    PackagingOption(Cloth, "Silk White", 200),
    PackagingOption(Cushion, "Foam", 0),
    PackagingOption(Cushion, "Satin Pillow", 300),
    PackagingOption(Ribbon, "Gold", 100),
    PackagingOption(Ribbon, "Red", 100)
  ]

  /** `options.find(o => o.name === name)`: the first option with that name. */
  function FindByName(opts: seq<PackagingOption>, name: string): (r: Option<PackagingOption>)
    ensures r.None? ==> forall i :: 0 <= i < |opts| ==> opts[i].name != name
    ensures r.Some? ==> exists i :: 0 <= i < |opts| && opts[i] == r.value && r.value.name == name
                                    && forall j :: 0 <= j < i ==> opts[j].name != name
  {
    if |opts| == 0 then None
    else if opts[0].name == name then Some(opts[0])
    else
      var r := FindByName(opts[1..], name);
      if r.Some? then
        var i :| 0 <= i < |opts[1..]| && opts[1..][i] == r.value && r.value.name == name
                 && forall j :: 0 <= j < i ==> opts[1..][j].name != name;
        assert opts[i + 1] == r.value;
        assert forall j :: 1 <= j < i + 1 ==> opts[j] == opts[1..][j - 1];
        r
      else
        r
  }

  /** What one choice adds: the matched option's price, or nothing for "Standard" ("") or an unknown name. */
  function ChoicePrice(name: string): int {
    match FindByName(Options, name)
    case None => 0
    case Some(o) => o.price
  }

  /** The selector's state: the four choices and the gift message. */
  datatype Selection = Selection(box: string, cloth: string, cushion: string, ribbon: string, giftMessage: string)

  function SelectionPrice(sel: Selection): int {
    ChoicePrice(sel.box) + ChoicePrice(sel.cloth) + ChoicePrice(sel.cushion) + ChoicePrice(sel.ribbon)
  }

  /** `handleChange`: echoes the choices and the message, with the summed price. */
  function HandleChange(sel: Selection): (p: Packaging)
    ensures p.boxColor == sel.box && p.innerCloth == sel.cloth
    ensures p.cushion == sel.cushion && p.ribbonColor == sel.ribbon
    ensures p.giftMessage == sel.giftMessage
    ensures p.packagingPrice == SelectionPrice(sel)
    ensures 0 <= p.packagingPrice <= 4 * 500
  {
    ChoiceBounds(sel.box);
    ChoiceBounds(sel.cloth);
    ChoiceBounds(sel.cushion);
    ChoiceBounds(sel.ribbon);
    Packaging(sel.box, sel.cloth, sel.cushion, sel.ribbon, sel.giftMessage, SelectionPrice(sel))
  }

  /** Any single choice, matched by name alone, costs between nothing and the dearest option. */
  lemma ChoiceBounds(name: string)
    ensures 0 <= ChoicePrice(name) <= 500
  {
  }

  /** "Standard" (the empty choice) and names outside the table cost nothing. */
  lemma UnmatchedChoiceIsFree(name: string)
    requires forall i :: 0 <= i < |Options| ==> Options[i].name != name
    ensures ChoicePrice(name) == 0
  {
  }

  /** `name` is what the dropdown for `kind` can produce: "Standard" or an option of that kind. */
  predicate Offered(kind: OptionKind, name: string) {
    name == "" || exists i :: 0 <= i < |Options| && Options[i].kind == kind && Options[i].name == name
  }

  /** The dearest option of each kind. */
  function KindMax(kind: OptionKind): int {
    match kind
    case Box => 500
    case Cloth => 200
    case Cushion => 300
    case Ribbon => 100
  }

  /** A choice its own dropdown offers costs at most the dearest option of that kind. */
  lemma OfferedChoiceBound(kind: OptionKind, name: string)
    requires Offered(kind, name)
    ensures 0 <= ChoicePrice(name) <= KindMax(kind)
  {
    if name == "" {
      UnmatchedChoiceIsFree(name);
    } else {
      var i :| 0 <= i < |Options| && Options[i].kind == kind && Options[i].name == name;
      TablePrices(i);
      OptionWithinKind(i);
    }
  }

  /** No option costs more than the dearest option of its kind. */
  lemma OptionWithinKind(i: nat)
    requires i < |Options|
    ensures 0 <= Options[i].price <= KindMax(Options[i].kind)
  {
    if i < 2 {
      assert Options[i].kind == Box && Options[i].price == 500;
    } else if i == 2 {
      assert Options[i].kind == Cloth;
    } else if i < 5 {
      assert Options[i].kind == Cushion;
    } else {
      assert Options[i].kind == Ribbon && Options[i].price == 100;
    }
  }

  /** Every option of the table is found by its own name: the names are distinct. */
  lemma TablePrices(i: nat)
    requires i < |Options|
    ensures ChoicePrice(Options[i].name) == Options[i].price
  {
    forall j | 0 <= j < i
      ensures Options[j].name != Options[i].name
    {
      NamesDistinct(j, i);
    }
    FindFirstMatch(Options, i, Options[i].name);
  }

  /** `find` returns the option at the first position that carries the name. */
  lemma FindFirstMatch(opts: seq<PackagingOption>, i: nat, name: string)
    requires i < |opts| && opts[i].name == name
    requires forall j :: 0 <= j < i ==> opts[j].name != name
    ensures FindByName(opts, name) == Some(opts[i])
  {
    var r := FindByName(opts, name);
    var k :| 0 <= k < |opts| && opts[k] == r.value && r.value.name == name
             && forall j :: 0 <= j < k ==> opts[j].name != name;
    assert !(k < i) && !(i < k);
  }

  /** Two table entries differ in their name's first letter or in its length. */
  lemma NamesDistinct(j: nat, i: nat)
    requires j < i < |Options|
    ensures Options[j].name != Options[i].name
  {
    var a, b := Options[j].name, Options[i].name;
    assert |a| > 0 && |b| > 0;
    assert a[0] != b[0] || |a| != |b|;
  }

  /** Choosing within each dropdown, the price is at most 500 + 200 + 300 + 100 cents. */
  lemma OfferedSelectionBound(sel: Selection)
    requires Offered(Box, sel.box) && Offered(Cloth, sel.cloth)
    requires Offered(Cushion, sel.cushion) && Offered(Ribbon, sel.ribbon)
    ensures 0 <= SelectionPrice(sel) <= 500 + 200 + 300 + 100
  {
    OfferedChoiceBound(Box, sel.box);
    OfferedChoiceBound(Cloth, sel.cloth);
    OfferedChoiceBound(Cushion, sel.cushion);
    OfferedChoiceBound(Ribbon, sel.ribbon);
  }

  /**
   Only the box dropdown is rendered, so the other three choices stay "":
   the price is that of the chosen box, 0 or 500.
   */
  lemma RenderedSelectorPrice(box: string, message: string)
    requires Offered(Box, box)
    ensures var price := SelectionPrice(Selection(box, "", "", "", message));
            (box == "" ==> price == 0) && (box != "" ==> price == 500)
  {
    var standard := ChoicePrice("");
    assert standard == 0 by {
      UnmatchedChoiceIsFree("");
    }
    assert box != "" ==> ChoicePrice(box) == 500 by {
      if box != "" {
        BoxPrice(box);
      }
    }
  }

  /** Every box in the table costs 500 cents. */
  lemma BoxPrice(box: string)
    requires box != "" && Offered(Box, box)
    ensures ChoicePrice(box) == 500
  {
    var i :| 0 <= i < |Options| && Options[i].kind == Box && Options[i].name == box;
    TablePrices(i);
    assert i < 2;
  }
}
