/** The decision logic of the `ShoeCard` component: which of the three presentation variants a
    product card takes, the fixed style table keyed by the variant's tag, the guard on that
    lookup, and the choices the card's markup makes: the variant decides whether the badge is
    drawn, how the regular price is styled and whether the discounted price is drawn; the
    link target depends only on the slug.

    The freshness check `isNewShoe` lives outside the component and depends on the clock; it
    is a parameter here, over an abstract date type `D`, and nothing is assumed about it. */
module ShoeCard {
  import opened Wrappers
  import opened Constants

  // ---------------------------------------------------------------------------------------
  // Data model
  // ---------------------------------------------------------------------------------------

  /** The presentation variant of one card. The component carries it as a string tag. */
  datatype Variant = Default | OnSale | NewRelease {

    /** The string the component uses for the variant, and the key of its style entry. */
    function Tag(): string {
      match this
      case Default => "default"
      case OnSale => "on-sale"
      case NewRelease => "new-release"
    }
  }

  /** The badge drawn over the image: its text and its background colour. */
  datatype Flag = Flag(text: string, backgroundColor: Color)

  /** How the regular price is drawn. */
  datatype PriceStyle = PriceStyle(color: Color, textDecorationLine: string)

  /** One entry of the style table; `flag` is absent for the default variant. */
  datatype Style = Style(flag: Option<Flag>, price: PriceStyle)

  /** The props of a card. `salePrice` is `Some` exactly when the prop is a number. */
  datatype Product<D> = Product(
    slug: string,
    name: string,
    imageSrc: string,
    price: int,
    salePrice: Option<int>,
    releaseDate: D,
    numOfColors: int)

  /** What one render of the card shows. `flag` is the badge if one is drawn; `salePrice` is
      the discounted price if it is drawn; `price` and `numOfColors` are shown through the
      external formatting helpers, which are not modelled. */
  datatype Card = Card(
    href: string,
    imageSrc: string,
    flag: Option<Flag>,
    name: string,
    price: int,
    priceStyle: PriceStyle,
    numOfColors: int,
    salePrice: Option<int>)

  /** The message of the error the lookup guard throws: the missing style is `undefined`. */
  const InvalidStyle: string := "Invalid style: undefined"

  /** The error a non-default card with no `flag` in its style would raise when reading
      `style.flag.backgroundColor`. */
  const MissingFlag: string := "TypeError: Cannot read properties of undefined (reading 'backgroundColor')"

  // ---------------------------------------------------------------------------------------
  // Variant selection
  // ---------------------------------------------------------------------------------------

  /** Whether the condition that calls for variant `v` holds. The default variant always
      applies; it is what is left when nothing else does. */
  predicate Applies<D>(v: Variant, salePrice: Option<int>, releaseDate: D, isNewShoe: D -> bool) {
    match v
    case OnSale => salePrice.Some?
    case NewRelease => isNewShoe(releaseDate)
    case Default => true
  }

  /** The precedence among variants: on-sale beats new-release, which beats default. */
  function Rank(v: Variant): nat {
    match v
    case OnSale => 2
    case NewRelease => 1
    case Default => 0
  }

  /** The variant of a card: the applicable variant of highest precedence. */
  function ResolveVariant<D>(salePrice: Option<int>, releaseDate: D, isNewShoe: D -> bool): (v: Variant)
    ensures Applies(v, salePrice, releaseDate, isNewShoe)
    ensures forall w :: Applies(w, salePrice, releaseDate, isNewShoe) ==> Rank(w) <= Rank(v)
  {
    if salePrice.Some? then OnSale
    else if isNewShoe(releaseDate) then NewRelease
    else Default
  }

  /** The precedence rule picks a single variant: two variants that both apply and both
      outrank every applicable variant are the same variant. */
  lemma BestApplicableIsUnique<D>(
    v: Variant, w: Variant, salePrice: Option<int>, releaseDate: D, isNewShoe: D -> bool)
    requires Applies(v, salePrice, releaseDate, isNewShoe) && Applies(w, salePrice, releaseDate, isNewShoe)
    requires forall u :: Applies(u, salePrice, releaseDate, isNewShoe) ==> Rank(u) <= Rank(v)
    requires forall u :: Applies(u, salePrice, releaseDate, isNewShoe) ==> Rank(u) <= Rank(w)
    ensures v == w
  {
  }

  /** A numeric sale price makes the card on-sale, whatever the release date and the
      freshness check say. */
  lemma SalePriceWins<D>(salePrice: Option<int>, isNewShoe: D -> bool)
    requires salePrice.Some?
    ensures forall releaseDate :: ResolveVariant(salePrice, releaseDate, isNewShoe) == OnSale
  {
  }

  /** Each variant arises under exactly one combination of the two tests. */
  lemma VariantCases<D>(salePrice: Option<int>, releaseDate: D, isNewShoe: D -> bool)
    ensures ResolveVariant(salePrice, releaseDate, isNewShoe) == OnSale <==> salePrice.Some?
    ensures ResolveVariant(salePrice, releaseDate, isNewShoe) == NewRelease
        <==> salePrice.None? && isNewShoe(releaseDate)
    ensures ResolveVariant(salePrice, releaseDate, isNewShoe) == Default
        <==> salePrice.None? && !isNewShoe(releaseDate)
  {
  }

  /** Distinct variants have distinct tags, so no two variants share a style entry. */
  lemma TagInjective(v: Variant, w: Variant)
    ensures v.Tag() == w.Tag() ==> v == w
  {
  }

  // ---------------------------------------------------------------------------------------
  // Style table and lookup guard
  // ---------------------------------------------------------------------------------------

  /** The `STYLE` table: one entry per variant tag. */
  function StyleTable(): (table: map<string, Style>)
    ensures table.Keys == {"default", "on-sale", "new-release"}
  {
    map[
      "default" := Style(None, PriceStyle(Gray900, "none")),
      "on-sale" := Style(Some(Flag("Sale", Primary)), PriceStyle(Gray700, "line-through")),
      "new-release" := Style(Some(Flag("Just Released!", Secondary)), PriceStyle(Gray900, "none"))
    ]
  }

  /** `STYLE[variant]` followed by the guard: a tag with no entry throws `InvalidStyle`. */
  function LookupStyle(tag: string): (r: Result<Style, string>)
    ensures r.Failure? <==> tag !in {"default", "on-sale", "new-release"}
    ensures r.Failure? ==> r.error == InvalidStyle
    ensures r.Success? ==> (r.value.flag.Some? <==> tag != "default")
    ensures r.Success? ==> (r.value.price.textDecorationLine == "line-through" <==> tag == "on-sale")
    ensures r.Success? ==> r.value.price.color == if tag == "on-sale" then Gray700 else Gray900
  {
    if tag in StyleTable() then Success(StyleTable()[tag]) else Failure(InvalidStyle)
  }

  /** The table has an entry for the tag of every variant and for nothing else. */
  lemma TableKeysAreVariantTags()
    ensures forall tag :: tag in StyleTable() <==> exists v: Variant :: v.Tag() == tag
  {
    forall tag | tag in StyleTable() ensures exists v: Variant :: v.Tag() == tag {
      if tag == "default" {
        assert Default.Tag() == tag;
      } else if tag == "on-sale" {
        assert OnSale.Tag() == tag;
      } else {
        assert NewRelease.Tag() == tag;
      }
    }
  }

  /** The guard never fires for a resolved variant: whatever the props, the lookup succeeds. */
  lemma GuardUnreachable<D>(salePrice: Option<int>, releaseDate: D, isNewShoe: D -> bool)
    ensures LookupStyle(ResolveVariant(salePrice, releaseDate, isNewShoe).Tag()).Success?
  {
  }

  /** A tag the resolver can produce for some props, given the freshness check. */
  ghost predicate Reachable<D(!new)>(tag: string, isNewShoe: D -> bool) {
    exists salePrice: Option<int>, releaseDate: D :: ResolveVariant(salePrice, releaseDate, isNewShoe).Tag() == tag
  }

  /** When the freshness check can answer both ways, the table's entries are exactly the
      tags the resolver can produce: no variant lacks an entry and no entry is dead. */
  lemma StyleEntriesAreExactlyReachable<D(!new)>(isNewShoe: D -> bool, newDate: D, oldDate: D)
    requires isNewShoe(newDate) && !isNewShoe(oldDate)
    ensures forall tag :: tag in StyleTable() <==> Reachable(tag, isNewShoe)
  {
    assert ResolveVariant(Some(0), oldDate, isNewShoe).Tag() == "on-sale";
    assert ResolveVariant(None, newDate, isNewShoe).Tag() == "new-release";
    assert ResolveVariant(None, oldDate, isNewShoe).Tag() == "default";
    forall tag | Reachable(tag, isNewShoe) ensures tag in StyleTable() {
      var salePrice: Option<int>, releaseDate: D :| ResolveVariant(salePrice, releaseDate, isNewShoe).Tag() == tag;
      GuardUnreachable(salePrice, releaseDate, isNewShoe);
    }
  }

  /** The style each variant gets: the badge texts and colours, and the price's colour and
      decoration. */
  lemma VariantStyle(v: Variant)
    ensures LookupStyle(v.Tag()).Success?
    ensures LookupStyle(v.Tag()).value.flag
         == match v
            case Default => None
            case OnSale => Some(Flag("Sale", Primary))
            case NewRelease => Some(Flag("Just Released!", Secondary))
    ensures LookupStyle(v.Tag()).value.price.color == if v == OnSale then Gray700 else Gray900
    ensures LookupStyle(v.Tag()).value.price.textDecorationLine == if v == OnSale then "line-through" else "none"
  {
  }

  // ---------------------------------------------------------------------------------------
  // Render decisions
  // ---------------------------------------------------------------------------------------

  /** The link target of a card: the detail route of its slug. */
  function LinkPath(slug: string): (href: string)
    ensures |href| == |slug| + 6
    ensures href[..6] == "/shoe/" && href[6..] == slug
  {
    "/shoe/" + slug
  }

  /** Distinct slugs give distinct link targets. */
  lemma LinkPathInjective(a: string, b: string)
    requires LinkPath(a) == LinkPath(b)
    ensures a == b
  {
  }

  /** One render of the card: resolve the variant, look up its style (throwing if there is
      none), then decide the badge, the price styling, the sale price and the link. Reading the
      badge of a non-default style that has no `flag` would throw as well. */
  function RenderCard<D>(p: Product<D>, isNewShoe: D -> bool): (r: Result<Card, string>)
    ensures r.Success?
  {
    var variant := ResolveVariant(p.salePrice, p.releaseDate, isNewShoe);
    var tag := variant.Tag();
    match LookupStyle(tag)
    case Failure(e) => Failure(e)
    case Success(style) =>
      if tag != "default" && style.flag.None? then Failure(MissingFlag)
      else
        Success(Card(
          href := LinkPath(p.slug),
          imageSrc := p.imageSrc,
          flag := if tag != "default" then Some(style.flag.value) else None,
          name := p.name,
          price := p.price,
          priceStyle := style.price,
          numOfColors := p.numOfColors,
          salePrice := if tag == "on-sale" then Some(p.salePrice.value) else None))
  }

  /** The badge is drawn exactly when the variant is not default, and it is the variant's
      own flag: "Sale" on the primary colour, "Just Released!" on the secondary one. */
  lemma BadgeShownIffNotDefault<D>(p: Product<D>, isNewShoe: D -> bool)
    ensures RenderCard(p, isNewShoe).value.flag.Some?
        <==> ResolveVariant(p.salePrice, p.releaseDate, isNewShoe) != Default
    ensures RenderCard(p, isNewShoe).value.flag == Some(Flag("Sale", Primary))
        <==> p.salePrice.Some?
    ensures RenderCard(p, isNewShoe).value.flag == Some(Flag("Just Released!", Secondary))
        <==> p.salePrice.None? && isNewShoe(p.releaseDate)
  {
  }

  /** The regular price is struck through exactly when the card is on sale, and is then drawn
      in the lighter grey. */
  lemma StrikethroughIffOnSale<D>(p: Product<D>, isNewShoe: D -> bool)
    ensures RenderCard(p, isNewShoe).value.priceStyle.textDecorationLine == "line-through"
        <==> ResolveVariant(p.salePrice, p.releaseDate, isNewShoe) == OnSale
    ensures RenderCard(p, isNewShoe).value.priceStyle.color
        == if p.salePrice.Some? then Gray700 else Gray900
  {
  }

  /** The discounted price is drawn exactly when the card is on sale, and what is drawn is the
      product's own sale price: it is shown if and only if one exists. */
  lemma SalePriceShownIffOnSale<D>(p: Product<D>, isNewShoe: D -> bool)
    ensures RenderCard(p, isNewShoe).value.salePrice.Some?
        <==> ResolveVariant(p.salePrice, p.releaseDate, isNewShoe) == OnSale
    ensures RenderCard(p, isNewShoe).value.salePrice == p.salePrice
  {
  }

  /** The card links to `/shoe/` followed by the slug, unchanged, shows the product's name,
      image, regular price and colour count as given, and draws the price with the `price`
      record of the resolved variant's style. */
  lemma CardShowsProps<D>(p: Product<D>, isNewShoe: D -> bool)
    ensures var c := RenderCard(p, isNewShoe).value;
      && c.href[..6] == "/shoe/" && c.href[6..] == p.slug
      && c.name == p.name && c.imageSrc == p.imageSrc
      && c.price == p.price && c.numOfColors == p.numOfColors
      && c.priceStyle == LookupStyle(ResolveVariant(p.salePrice, p.releaseDate, isNewShoe).Tag()).value.price
  {
  }
}
