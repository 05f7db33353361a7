/**
 * The product-card closure of Scrape::scrape and the `each` over all cards of a page.
 * A card is given abstractly by the texts and attributes the closure reads from it.
 */
module Extraction {
  import opened Wrappers
  import opened Text
  import opened Normalise

  const BaseUrl: string := "https://www.magpiehq.com/developer-challenge/smartphones"

  /** What the closure reads from one `.product` element. */
  datatype Card = Card(
    title: string,                 // text of the first `.product-name`
    capacity: string,              // text of the `.product-capacity` sibling of the title
    imageSrc: string,              // `src` of the `img`
    colours: seq<Option<string>>,  // `data-colour` of each swatch span (null when absent)
    priceText: string,             // text of the price block
    texts: seq<string>)            // texts of the small `.text-sm` elements, in document order

  /**
   * A Product record. The price keeps its text; the four fields the closure may
   * never set are optional, and `shippingDate` is Some(None) once set to null.
   */
  datatype Product = Product(
    title: string,
    priceText: string,
    imageUrl: string,
    capacityMb: int,
    colour: seq<Option<string>>,
    availabilityText: Option<string>,
    isAvailable: Option<bool>,
    shippingText: Option<string>,
    shippingDate: Option<Option<int>>)

  /** What the closure gives for one card: null, a Product, or an uncaught TypeError. */
  datatype CardResult = Dropped | Extracted(product: Product) | Failed

  predicate IsAvailabilityText(text: string) {
    ContainsCI(text, "availability")
  }

  /** One pass of the loop over the small text elements. */
  function ApplyText(p: Product, text: string, parse: string -> Option<int>): Product {
    if IsAvailabilityText(text) then
      var availability := TrimAvailability(text);
      p.(availabilityText := Some(availability), isAvailable := Some(!ContainsCI(availability, "out of")))
    else
      p.(shippingText := Some(text), shippingDate := Some(FirstValidDate(text, parse)))
  }

  predicate SameCardFields(p: Product, q: Product) {
    p.title == q.title && p.priceText == q.priceText && p.imageUrl == q.imageUrl
    && p.capacityMb == q.capacityMb && p.colour == q.colour
  }

  /** The loop over the small text elements, in document order. */
  function ApplyTexts(p: Product, texts: seq<string>, parse: string -> Option<int>): (r: Product)
    ensures SameCardFields(p, r)
    decreases |texts|
  {
    if texts == [] then p
    else ApplyText(ApplyTexts(p, texts[..|texts| - 1], parse), texts[|texts| - 1], parse)
  }

  /** The index of the last text that is (when `availability`) or is not an availability
      text, or -1 when there is none. */
  function LastWhere(texts: seq<string>, availability: bool): (i: int)
    ensures -1 <= i < |texts|
    ensures i >= 0 ==> IsAvailabilityText(texts[i]) == availability
    ensures forall j :: i < j < |texts| ==> IsAvailabilityText(texts[j]) != availability
    decreases |texts|
  {
    if texts == [] then -1
    else if IsAvailabilityText(texts[|texts| - 1]) == availability then |texts| - 1
    else LastWhere(texts[..|texts| - 1], availability)
  }

  /**
   * The last availability text decides `availabilityText` and `isAvailable`; the
   * product is unavailable exactly when the trimmed text mentions "out of" in any case.
   */
  lemma {:induction false} AvailabilityFromLastAvailabilityText(p: Product, texts: seq<string>, parse: string -> Option<int>)
    ensures var i := LastWhere(texts, true); var r := ApplyTexts(p, texts, parse);
      if i < 0 then
        r.availabilityText == p.availabilityText && r.isAvailable == p.isAvailable
      else
        && r.availabilityText == Some(TrimAvailability(texts[i]))
        && r.isAvailable.Some?
        && (r.isAvailable == Some(false) <==> ContainsCI(TrimAvailability(texts[i]), "out of"))
    decreases |texts|
  {
    if texts != [] {
      var init := texts[..|texts| - 1];
      AvailabilityFromLastAvailabilityText(p, init, parse);
      if !IsAvailabilityText(texts[|texts| - 1]) {
        assert LastWhere(texts, true) == LastWhere(init, true);
        var i := LastWhere(init, true);
        if i >= 0 {
          assert texts[i] == init[i];
        }
      }
    }
  }

  /** The last other text decides `shippingText` (verbatim) and `shippingDate`. */
  lemma {:induction false} ShippingFromLastOtherText(p: Product, texts: seq<string>, parse: string -> Option<int>)
    ensures var i := LastWhere(texts, false); var r := ApplyTexts(p, texts, parse);
      if i < 0 then
        r.shippingText == p.shippingText && r.shippingDate == p.shippingDate
      else
        r.shippingText == Some(texts[i]) && r.shippingDate == Some(FirstValidDate(texts[i], parse))
    decreases |texts|
  {
    if texts != [] {
      var init := texts[..|texts| - 1];
      ShippingFromLastOtherText(p, init, parse);
      if IsAvailabilityText(texts[|texts| - 1]) {
        assert LastWhere(texts, false) == LastWhere(init, false);
        var i := LastWhere(init, false);
        if i >= 0 {
          assert texts[i] == init[i];
        }
      }
    }
  }

  lemma LabelRemovedFromOutOfStock()
    ensures RemoveAllCI("Availability: Out of Stock", AvailabilityLabel) == " Out of Stock"
  {
    var t := "Availability: Out of Stock";
    var rest := " Out of Stock";
    assert t[|AvailabilityLabel|..] == rest;
    assert Lower(t[..|AvailabilityLabel|]) == AvailabilityLabel;
    assert RemoveAllCI(rest, AvailabilityLabel) == rest by {
      assert Lower(rest[..|AvailabilityLabel|])[0] != AvailabilityLabel[0];
      assert rest[1..] == "Out of Stock";
      assert [rest[0]] + "Out of Stock" == rest;
    }
  }

  lemma TrimmedOutOfStock()
    ensures Trim(" Out of Stock") == "Out of Stock"
  {
    var words := "Out of Stock";
    assert words[0] == 'O' && words[|words| - 1] == 'k';
    assert " Out of Stock" == [' '] + words;
    TrimAfterOneSpace(' ', words);
  }

  lemma TrimAvailabilityOfOutOfStock()
    ensures TrimAvailability("Availability: Out of Stock") == "Out of Stock"
  {
    var t := "Availability: Out of Stock";
    assert Trim(t) == t by {
      TrimOfTrimmed(t);
    }
    LabelRemovedFromOutOfStock();
    TrimmedOutOfStock();
  }

  lemma OutOfStockIsAvailabilityText()
    ensures IsAvailabilityText("Availability: Out of Stock")
    ensures ContainsCI("Out of Stock", "out of")
  {
    assert OccursAt("Availability: Out of Stock", "availability", 0);
    assert OccursAt("Out of Stock", "out of", 0);
  }

  /** A card whose only small text is "Availability: Out of Stock" is unavailable. */
  lemma OutOfStockExample(p: Product, parse: string -> Option<int>)
    ensures ApplyTexts(p, ["Availability: Out of Stock"], parse).availabilityText == Some("Out of Stock")
    ensures ApplyTexts(p, ["Availability: Out of Stock"], parse).isAvailable == Some(false)
  {
    var texts := ["Availability: Out of Stock"];
    OutOfStockIsAvailabilityText();
    TrimAvailabilityOfOutOfStock();
    assert LastWhere(texts, true) == 0;
    AvailabilityFromLastAvailabilityText(p, texts, parse);
  }

  /** The Product the closure builds before it looks at the small text elements. */
  function BaseProduct(card: Card, mb: int): Product {
    Product(card.title, card.priceText, BaseUrl + CleanUrl(card.imageSrc), mb, card.colours,
            None, None, None, None)
  }

  /** Reference definition of the closure, given the titles of the products held before the call. */
  function CardSpec(card: Card, held: set<string>, parse: string -> Option<int>): CardResult {
    if card.title in held then Dropped
    else match CapacityStringToMb(card.capacity)
      case None => Failed
      case Some(mb) => Extracted(ApplyTexts(BaseProduct(card, mb), card.texts, parse))
  }

  /**
   * What the closure does with one card: it yields null exactly when a held product has
   * the card's title, and raises exactly when the title is new and the capacity text has
   * no digit; a Product carries the card's title, its capacity in MB and the image
   * source appended to BASE_URL without its leading full stops.
   */
  lemma CardOutcome(card: Card, held: set<string>, parse: string -> Option<int>)
    ensures var r := CardSpec(card, held, parse);
      && (r.Dropped? <==> card.title in held)
      && (r.Failed? <==> card.title !in held && forall i :: 0 <= i < |card.capacity| ==> !IsDigit(card.capacity[i]))
      && (r.Extracted? ==>
           && SameCardFields(BaseProduct(card, r.product.capacityMb), r.product)
           && r.product.title == card.title
           && |BaseUrl| <= |r.product.imageUrl|
           && r.product.imageUrl[..|BaseUrl|] == BaseUrl
           && r.product.imageUrl[|BaseUrl|..] == CleanUrl(card.imageSrc)
           && Some(r.product.capacityMb) == CapacityStringToMb(card.capacity))
  {
  }

  /** One more text element is one more pass of the loop. */
  lemma ApplyTextsStep(p: Product, texts: seq<string>, i: nat, parse: string -> Option<int>)
    requires i < |texts|
    ensures ApplyTexts(p, texts[..i + 1], parse) == ApplyText(ApplyTexts(p, texts[..i], parse), texts[i], parse)
  {
    assert texts[..i + 1][..i] == texts[..i];
  }

  /** The inner closure applied to one small text element: an availability text sets the
      availability fields, any other text the shipping fields. */
  method ApplyTextStep(product: Product, text: string, parse: string -> Option<int>) returns (q: Product)
    ensures q == ApplyText(product, text, parse)
  {
    if ContainsCI(text, "availability") {
      var availability := TrimAvailability(text);
      q := product.(availabilityText := Some(availability), isAvailable := Some(true));
      if ContainsCI(availability, "out of") {
        q := q.(isAvailable := Some(false));
      }
    } else {
      var date := TrimUntilValidDate(text, parse);
      q := product.(shippingText := Some(text), shippingDate := Some(date));
    }
  }

  /**
   * The closure applied to one card: a card whose title a held product already has
   * yields null; otherwise the fields are read in source order, and a capacity text
   * without digits raises the TypeError that ends the scrape.
   */
  method ExtractCard(card: Card, held: set<string>, parse: string -> Option<int>) returns (r: CardResult)
    ensures r == CardSpec(card, held, parse)
  {
    if card.title in held {
      return Dropped;
    }
    var mb := CapacityStringToMb(card.capacity);
    if mb.None? {
      return Failed;
    }
    var product := BaseProduct(card, mb.value);
    ghost var base := product;
    var i := 0;
    while i < |card.texts|
      invariant 0 <= i <= |card.texts|
      invariant product == ApplyTexts(base, card.texts[..i], parse)
    {
      ApplyTextsStep(base, card.texts, i, parse);
      product := ApplyTextStep(product, card.texts[i], parse);
      i := i + 1;
    }
    assert card.texts[..i] == card.texts;
    r := Extracted(product);
  }

  // ---------------------------------------------------------------------------
  // All cards of one page
  // ---------------------------------------------------------------------------

  /** The value the closure hands back to `each`: the Product, or null. */
  function Slot(r: CardResult): Option<Product> {
    if r.Extracted? then Some(r.product) else None
  }

  function Slots(cards: seq<Card>, held: set<string>, parse: string -> Option<int>): (s: seq<Option<Product>>)
    ensures |s| == |cards|
  {
    seq(|cards|, k requires 0 <= k < |cards| => Slot(CardSpec(cards[k], held, parse)))
  }

  /** `each` over the `.product` elements: one slot per card, or None when a card raises. */
  function PageSpec(cards: seq<Card>, held: set<string>, parse: string -> Option<int>): Option<seq<Option<Product>>> {
    if exists k :: 0 <= k < |cards| && CardSpec(cards[k], held, parse).Failed? then None
    else Some(Slots(cards, held, parse))
  }

  /** `each` over the `.product` elements: the closure on every card in document order;
      the first card that raises ends the scrape. */
  method ExtractPage(cards: seq<Card>, held: set<string>, parse: string -> Option<int>) returns (found: Option<seq<Option<Product>>>)
    ensures found == PageSpec(cards, held, parse)
  {
    ghost var spec := Slots(cards, held, parse);
    var slots: seq<Option<Product>> := [];
    var i := 0;
    while i < |cards|
      invariant 0 <= i <= |cards| && slots == spec[..i]
      invariant forall k :: 0 <= k < i ==> !CardSpec(cards[k], held, parse).Failed?
    {
      var r := ExtractCard(cards[i], held, parse);
      if r.Failed? {
        return None;
      }
      assert spec[..i + 1] == spec[..i] + [spec[i]];
      slots := slots + [Slot(r)];
      i := i + 1;
    }
    assert spec[..i] == spec;
    found := Some(slots);
  }

  /** Every slot holds a Product. */
  predicate NoNulls(slots: seq<Option<Product>>) {
    forall i :: 0 <= i < |slots| ==> slots[i].Some?
  }

  /** array_filter: the products without the nulls, in order. */
  function Compact(slots: seq<Option<Product>>): (r: seq<Option<Product>>)
    ensures |r| <= |slots|
    ensures NoNulls(r)
  {
    if slots == [] then []
    else if slots[0].Some? then [slots[0]] + Compact(slots[1..])
    else Compact(slots[1..])
  }

  /** The titles of the non-null slots, in order. */
  function Titles(slots: seq<Option<Product>>): seq<string> {
    if slots == [] then []
    else if slots[0].Some? then [slots[0].value.title] + Titles(slots[1..])
    else Titles(slots[1..])
  }

  /** The titles held by an instance's products: what the closure compares against. */
  function TitleSet(slots: seq<Option<Product>>): set<string> {
    set i | 0 <= i < |slots| && slots[i].Some? :: slots[i].value.title
  }

  /** The titles of the cards, in document order, leaving out those in `held`. */
  function KeptTitles(cards: seq<Card>, held: set<string>): seq<string> {
    if cards == [] then []
    else if cards[0].title in held then KeptTitles(cards[1..], held)
    else [cards[0].title] + KeptTitles(cards[1..], held)
  }

  function CardTitles(cards: seq<Card>): seq<string> {
    if cards == [] then [] else [cards[0].title] + CardTitles(cards[1..])
  }

  lemma {:induction false} CompactAppend(a: seq<Option<Product>>, b: seq<Option<Product>>)
    ensures Compact(a + b) == Compact(a) + Compact(b)
  {
    if a == [] {
      assert a + b == b;
    } else {
      assert (a + b)[1..] == a[1..] + b;
      CompactAppend(a[1..], b);
    }
  }

  lemma {:induction false} CompactOfProducts(s: seq<Option<Product>>)
    requires NoNulls(s)
    ensures Compact(s) == s
  {
    if s != [] {
      CompactOfProducts(s[1..]);
      assert [s[0]] + s[1..] == s;
    }
  }

  lemma {:induction false} TitlesOfCompact(s: seq<Option<Product>>)
    ensures Titles(Compact(s)) == Titles(s)
  {
    if s != [] {
      TitlesOfCompact(s[1..]);
      if s[0].Some? {
        assert ([s[0]] + Compact(s[1..]))[1..] == Compact(s[1..]);
      }
    }
  }

  lemma {:induction false} TitlesOfSlots(cards: seq<Card>, held: set<string>, parse: string -> Option<int>)
    requires forall k :: 0 <= k < |cards| ==> !CardSpec(cards[k], held, parse).Failed?
    ensures Titles(Slots(cards, held, parse)) == KeptTitles(cards, held)
  {
    if cards != [] {
      assert Slots(cards, held, parse)[1..] == Slots(cards[1..], held, parse);
      TitlesOfSlots(cards[1..], held, parse);
    }
  }

  /**
   * A card is left out exactly when its title is held by a product of the instance
   * before the call; the surviving products keep document order, and two cards of
   * the same page with the same new title are both kept.
   */
  lemma SurvivorsInDocumentOrder(cards: seq<Card>, held: set<string>, parse: string -> Option<int>)
    requires PageSpec(cards, held, parse).Some?
    ensures Titles(Compact(PageSpec(cards, held, parse).value)) == KeptTitles(cards, held)
  {
    TitlesOfSlots(cards, held, parse);
    TitlesOfCompact(Slots(cards, held, parse));
  }

  /** With nothing held no slot is null. */
  lemma NothingHeldNoNulls(cards: seq<Card>, parse: string -> Option<int>)
    requires PageSpec(cards, {}, parse).Some?
    ensures var found := PageSpec(cards, {}, parse).value;
      |found| == |cards| && NoNulls(found)
  {
  }

  /** With nothing held (a fresh instance) no card is dropped at all. */
  lemma {:induction false} NothingHeldKeepsEveryTitle(cards: seq<Card>)
    ensures KeptTitles(cards, {}) == CardTitles(cards)
  {
    if cards != [] {
      NothingHeldKeepsEveryTitle(cards[1..]);
    }
  }

  /** Two cards with the same title on one page both survive. */
  lemma SamePageDuplicatesBothKept(card: Card, held: set<string>, parse: string -> Option<int>)
    requires card.title !in held
    requires exists i :: 0 <= i < |card.capacity| && IsDigit(card.capacity[i])
    ensures PageSpec([card, card], held, parse).Some?
    ensures Titles(Compact(PageSpec([card, card], held, parse).value)) == [card.title, card.title]
  {
    SurvivorsInDocumentOrder([card, card], held, parse);
    assert [card, card][1..] == [card];
    assert KeptTitles([card], held) == [card.title] by {
      assert [card][1..] == [];
    }
    assert KeptTitles([card, card], held) == [card.title] + [card.title];
  }
}
