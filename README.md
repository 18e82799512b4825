# Shoe card variant and style model

A Dafny model of the decision logic of the `ShoeCard` React component of the
sole-and-ankle storefront. A product card has one of three presentation variants:
`on-sale`, `new-release` or `default`. The variant picks an entry of a fixed style table.
That entry holds an optional badge (`flag`) with its text and background colour, and the
price's colour and text decoration. The variant decides whether the badge is drawn, how the
regular price is styled and whether the discounted price is drawn; the link target depends
only on the slug.

Modules:

- `Wrappers`: `Option` (a prop that may be absent) and `Result` (a value, or the message of
  a thrown error).
- `Constants`: the colour tokens the card uses from `src/constants.js`, as distinct opaque
  constants.
- `ShoeCard`: the variant resolver, the `STYLE` table and its lookup guard, and
  `RenderCard`, which gives what one render shows.

The variant is a datatype. The component itself carries it as a string tag (`Variant.Tag`),
and the table is a map keyed by those strings. So the `Invalid style` guard is a real error
path for a tag that is not in the table, and it is proved unreachable for every variant the
resolver produces.

The freshness check `isNewShoe` is imported from a helper module and reads the clock. Here it
is a parameter `isNewShoe: D -> bool` over an abstract date type `D`, and no lemma assumes
anything about it. The lemma `StyleEntriesAreExactlyReachable` is the one exception: it only
requires that some date counts as new and some date does not.

The resolver takes `salePrice` and `releaseDate` and nothing else. The regular `price` prop
plays no part in choosing the variant.

## Model

| member | source | states |
|---|---|---|
| `ShoeCard.ResolveVariant` | src/components/ShoeCard/ShoeCard.js:22-32 | The variant's condition holds (a numeric sale price for on-sale, a fresh release date for new-release, always for default), and no applicable variant has higher precedence (on-sale over new-release over default). |
| `ShoeCard.BestApplicableIsUnique` | src/components/ShoeCard/ShoeCard.js:28-32 | The precedence rule determines a single variant: two applicable variants that both outrank every applicable variant are equal. |
| `ShoeCard.SalePriceWins` | src/components/ShoeCard/ShoeCard.js:22-29 | A numeric sale price gives `on-sale` for every release date, so on-sale wins over new-release. |
| `ShoeCard.VariantCases` | src/components/ShoeCard/ShoeCard.js:28-32 | on-sale iff a sale price is present; new-release iff it is absent and the shoe is new; default iff it is absent and the shoe is not new. |
| `ShoeCard.TagInjective` | src/components/ShoeCard/ShoeCard.js:28-61 | `Variant.Tag` gives each variant the string the resolver writes at lines 29-32 (`on-sale`, `new-release`, `default`); distinct variants have distinct tags, so no two variants share one style entry. |
| `ShoeCard.StyleTable` | src/components/ShoeCard/ShoeCard.js:34-61 | The `STYLE` table has exactly the keys `default`, `on-sale` and `new-release`. Its entries' contents are stated by `VariantStyle`, and `TableKeysAreVariantTags` ties its keys to the variant tags. |
| `ShoeCard.LookupStyle` | src/components/ShoeCard/ShoeCard.js:34-67 | The lookup throws `Invalid style: undefined` exactly for a tag outside `default`, `on-sale` and `new-release`. On success the style has a flag iff the tag is not `default`, a `line-through` price iff the tag is `on-sale`, and a `gray[700]` price colour when on sale and `gray[900]` otherwise. |
| `ShoeCard.TableKeysAreVariantTags` | src/components/ShoeCard/ShoeCard.js:34-61 | A string is a key of the style table iff it is the tag of some variant. |
| `ShoeCard.GuardUnreachable` | src/components/ShoeCard/ShoeCard.js:63-67 | For every sale price, release date and freshness check, the lookup of the resolved variant succeeds, so the throw cannot happen. |
| `ShoeCard.StyleEntriesAreExactlyReachable` | src/components/ShoeCard/ShoeCard.js:28-67 | When the freshness check answers true for some date and false for another, the table's keys are exactly the tags the resolver can produce: no variant lacks an entry and no entry is dead. |
| `ShoeCard.VariantStyle` | src/components/ShoeCard/ShoeCard.js:35-60 | Each variant's style: on-sale has badge "Sale" on the primary colour, new-release has "Just Released!" on the secondary colour, default has no badge; the price is `gray[700]` and `line-through` when on sale, and `gray[900]` and `none` otherwise. |
| `ShoeCard.LinkPath` | src/components/ShoeCard/ShoeCard.js:70 | The link target is `/shoe/` followed by the slug, unchanged. |
| `ShoeCard.LinkPathInjective` | src/components/ShoeCard/ShoeCard.js:70 | Distinct slugs give distinct link targets. |
| `ShoeCard.RenderCard` | src/components/ShoeCard/ShoeCard.js:63-92 | Rendering never throws: neither the lookup guard nor a read of a missing `flag` can fail. |
| `ShoeCard.BadgeShownIffNotDefault` | src/components/ShoeCard/ShoeCard.js:75-80 | The badge is drawn iff the variant is not default. It is "Sale" on the primary colour iff a sale price is present, and "Just Released!" on the secondary colour iff there is none and the shoe is new. |
| `ShoeCard.StrikethroughIffOnSale` | src/components/ShoeCard/ShoeCard.js:85-88 | The regular price is struck through iff the variant is on-sale. Its colour is `gray[700]` when a sale price is present and `gray[900]` otherwise. |
| `ShoeCard.SalePriceShownIffOnSale` | src/components/ShoeCard/ShoeCard.js:92 | The discounted price is drawn iff the variant is on-sale. What is drawn is exactly the product's sale price, so it is shown iff one exists. |
| `ShoeCard.CardShowsProps` | src/components/ShoeCard/ShoeCard.js:70-91 | The card links to `/shoe/` + slug and shows the product's name, image, regular price and colour count as given; the price is drawn with the `price` record of the resolved variant's style, so its decoration is `none` whenever the card is not on sale. |

## Left out

- The JSX tree, the `styled-components` CSS blocks and the layout: these are markup with no decisions beyond the ones modelled.
- `formatPrice` and `pluralize` come from a helper module that is not part of this model. The card records the raw price, sale price and colour count that it passes to them, not the text they produce, so texts such as "1 Color" and "3 Colors" are not modelled.
- `isNewShoe` comes from the same helper module and reads the current time. It is a parameter here. Date arithmetic, the one-month window and the clock are not modelled.
- Prices are integers in an `Option`. The JavaScript test `typeof salePrice === 'number'` also accepts `NaN` and non-integral numbers, and these are not modelled.
- The hsl strings and font weights of `src/constants.js` are not modelled. The four colours are distinct opaque constants.
- In JavaScript, looking up an inherited object key such as `toString` or `constructor` in the `STYLE` object returns a truthy value, so the guard would let it through. The model treats the table as a plain map, so every non-variant tag fails the guard. The resolver never produces such a tag.
- `MissingFlag` is the message of the `TypeError` a non-default style without a `flag` would raise. The exact wording depends on the JavaScript engine; only the fact that it throws matters, and it is proved not to happen.
- `Spacer`, the `Link` element's navigation and React's rendering semantics are external primitives.
- Rendering the same props twice with the same freshness answer gives the same card: every member here is a function, so no lemma is needed.
