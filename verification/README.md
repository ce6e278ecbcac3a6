# react-infinite-scroll — a Dafny model of the product list's core logic

The product list page (`src/pages/index.tsx`) does two small pieces of
computation. This project models both and proves what they promise.

- **The blur placeholder.** `keyStr`, `triplet` and `rgbDataURL` build a
  `data:image/gif;base64,…` URL that holds a 1x1 GIF in one colour. This is
  the placeholder `next/image` shows while a product image loads. `triplet`
  writes one three-byte group in the base64 alphabet of section 4 of RFC 4648
  (Table 1), using JavaScript's `>>`, `<<`, `&` and `|`. `rgbDataURL` splices
  two such groups into fixed base64 text.
- **The pagination arithmetic.** `fetchItems(page)` requests
  `…/products?offset=<page>&limit=3`. It attaches a `nextPage` marker to the
  response: `page + 1` when the response has more than `maxItemCount` = 100
  items, otherwise `null`. `useInfiniteQuery` starts with `pageParam = 1`.
  After that it asks `getNextPageParam`, which returns `allPages.length + 1`
  while the last marker compares `<= 100`, and `undefined` otherwise.

Modules:

- `Options`: an `Option` type.
- `JsBits`: JavaScript's shift and bitwise operators on non-negative
  integers, defined bit by bit.
- `Base64`: `keyStr`, `triplet`, an independent encoder and a decoder, both
  following RFC 4648.
- `BlurPlaceholder`: `rgbDataURL`, its inverse, and the 43 bytes of the GIF
  it carries, laid out as in the GIF89a specification.
- `Decimal`: how a template literal renders an integer, and a parser for
  that text.
- `Pagination`: `fetchItems`, `getNextPageParam` and the sequence of pages
  the infinite query accumulates.

A response enters the pagination model only through its item count. The
infinite query's driver is modelled by `Pagination.Feed`:

1. The first fetch gets no page parameter, so the default 1 applies.
2. Each later fetch gets `getNextPageParam` of the last page and all pages.
3. The run stops once that parameter is `undefined`.

JavaScript's `null <= 100` converts `null` to 0 and is true.
`undefined <= 100` converts `undefined` to NaN and is false.
`Pagination.LessOrEqual` models both.

One might expect a page without a next cursor to end the run. The code
does not do that. A `null` marker compares `<= 100`,
so the query keeps going. It stops only when a response of more than 100
items arrives for page 100 or later: only then is the marker a number above
100. This model follows the code, and `Pagination.ExhaustionIff` states the
exact condition. With `limit=3` no response can hold more than 3 items, so
the run never stops (`Pagination.SmallPagesNeverExhaust`).

## Model

| member | source | states |
|---|---|---|
| Base64.KeyStrIsAlphabet | src/pages/index.tsx:94-95 | `keyStr` has 65 characters. Indexes 0-63 are the RFC 4648 base64 alphabet in table order, and index 64 is the pad `=` |
| Base64.Triplet | src/pages/index.tsx:97-101 | `triplet` returns exactly four characters, and each one is a base64 letter. None is the pad `=`, and none is the empty string `charAt` gives out of range |
| JsBits.ShiftRightDivides | src/pages/index.tsx:98-100 | `x >> k` on a non-negative `x` is `x` divided by 2^k, rounded down |
| JsBits.BitAndLowMask | src/pages/index.tsx:99-101 | `x & (2^k - 1)` keeps the low `k` bits: it is `x mod 2^k`. These are the masks 3, 15 and 63 |
| JsBits.BitOrDisjoint | src/pages/index.tsx:99-100 | If `y` fits in `k` bits, or-ing `y` onto `x << k` gives `x * 2^k + y` |
| Base64.TripletIndicesArithmetic | src/pages/index.tsx:98-101 | The four `charAt` indices are `e1/4`, `(e1 mod 4)*16 + e2/16`, `(e2 mod 16)*4 + e3/64` and `e3 mod 64` |
| Base64.TripletIndicesAreSextets | src/pages/index.tsx:97-101 | Every index is below 64. The indices are the four 6-bit groups of the 24-bit value `e1*2^16 + e2*2^8 + e3`, most significant first |
| Base64.TripletIsEncodeGroup | src/pages/index.tsx:97-101 | `triplet` writes the same four letters as an independent RFC 4648 encoding of the three-byte group |
| Base64.TripletRoundTrip | src/pages/index.tsx:97-101 | Decoding the four letters `triplet` writes gives back `(e1, e2, e3)` |
| Base64.TripletDecodes | src/pages/index.tsx:97-101 | The whole-text decoder reads `triplet`'s output as the three bytes `[e1, e2, e3]` |
| Base64.DecodeGroupComplete | src/pages/index.tsx:97-101 | Every four-letter group the decoder accepts is exactly what `triplet` writes for the bytes it decodes to |
| Base64.TripletInjective | src/pages/index.tsx:97-101 | Different byte triples never give the same four letters |
| Base64.DecodeAppend | src/pages/index.tsx:104-106 | Decoding base64 text that is whole unpadded groups followed by more text gives the two decodings joined. The placeholder's payload is read this way |
| BlurPlaceholder.RgbDataURL | src/pages/index.tsx:103-106 | The URL is the 22-character `data:image/gif;base64,` head followed by 60 base64 characters: 16 fixed, 8 for the colour, 36 fixed |
| BlurPlaceholder.HeadDecodes | src/pages/index.tsx:104 | The fixed text before the colour decodes to the `GIF89a` signature and a 1x1 logical screen with flags 0xF0 (a global colour table of two entries), up to the background index |
| BlurPlaceholder.TailDecodes | src/pages/index.tsx:106 | The fixed text after the colour decodes to the rest of the white palette entry, a graphic control extension, a 1x1 image with its LZW data, and the trailer |
| BlurPlaceholder.PayloadIsGif | src/pages/index.tsx:103-106 | The base64 part of `rgbDataURL(r, g, b)` decodes to the 43-byte GIF with `r`, `g`, `b` at bytes 13-15 |
| BlurPlaceholder.PaletteCarriesColour | src/pages/index.tsx:104-106 | That GIF's global colour table is exactly `[(r, g, b), white]`, and its background index 0 selects the colour |
| BlurPlaceholder.PlaceholderCarriesColour | src/pages/index.tsx:103-106 | The placeholder URL for a colour decodes to a GIF whose palette starts with that colour |
| BlurPlaceholder.ParseRgbRoundTrip | src/pages/index.tsx:103-106 | `r`, `g` and `b` can be read back from `rgbDataURL(r, g, b)` |
| BlurPlaceholder.ParseRgbExact | src/pages/index.tsx:103-106 | The only text the colour reader accepts for a colour is `rgbDataURL` of that colour |
| BlurPlaceholder.ParseRgbCharacterises | src/pages/index.tsx:103-106 | A text is `rgbDataURL(r, g, b)` exactly when the colour reader returns `(r, g, b)` for it |
| BlurPlaceholder.RgbDataURLInjective | src/pages/index.tsx:103-106 | Different colours give different placeholder URLs |
| Decimal.NatRoundTrip | src/pages/index.tsx:41 | The decimal notation of a natural number parses back to it |
| Decimal.IntRoundTrip | src/pages/index.tsx:41 | The decimal notation a template literal gives an integer, with `-` for a negative one, parses back to the integer |
| Decimal.IntToStringInjective | src/pages/index.tsx:41 | Different integers render differently |
| Pagination.NextPageMarker | src/pages/index.tsx:44 | The marker is `null` exactly when the response has at most 100 items (exactly 100 gives `null`). Otherwise it is the number `page + 1`. It is never `undefined` |
| Pagination.FetchItems | src/pages/index.tsx:38-46 | The request URL carries `offset` = `page` and `limit` = 3. The returned page keeps the response's length, and its marker is `null` for at most 100 items and the number `page + 1` otherwise, never `undefined` |
| Pagination.FetchUrlRoundTrip | src/pages/index.tsx:39-41 | Reading the query of the request URL gives back `(page, 3)` |
| Pagination.GetNextPageParam | src/pages/index.tsx:61-67 | It returns `allPages.length + 1` when the last marker is `null` or a number up to 100. It returns `undefined` when the marker is `undefined`, a number above 100, or the last page is absent |
| Pagination.FetchNextKeepsBuilt | src/pages/index.tsx:57-67 | One more fetch on data the query built keeps it built: the new page is fetched with parameter count + 1 (1 for the first page, the `pageParam` default) and carries the marker `fetchItems` gives that page |
| Pagination.Feed | src/pages/index.tsx:54-67 | A run keeps the pages it had. It appends one page per response, in order, each carrying its fetch parameter's marker. It stops early only when there is no next parameter |
| Pagination.NextPageParamOfBuilt | src/pages/index.tsx:61-67 | For pages the query built, the next parameter is the page count plus one. There is none exactly when the last page has over 100 items and its number is at least 100 |
| Pagination.FeedKeepsBuilt | src/pages/index.tsx:57-67 | The query numbers pages 1, 2, 3, …: the first request uses the default 1, and after k pages the next uses k + 1 |
| Pagination.RequestsOfRun | src/pages/index.tsx:38-67 | The i-th request of a run (counting from 0) is fetched with parameter i + 1, and its URL asks for `offset` = i + 1 and `limit` = 3. So no request of any run, the last one and a one-page run included, covers item 0 |
| Pagination.ExhaustionIff | src/pages/index.tsx:44-67 | A run ends exactly when some response with more than 100 items arrives for page 100 or later |
| Pagination.SmallPagesNeverExhaust | src/pages/index.tsx:39-67 | If no response has more than 3 items, every response is loaded and a next page (count + 1) is always offered |
| Pagination.ConsecutiveRequestsOverlap | src/pages/index.tsx:41 | As written, the requests of consecutive pages i + 1 and i + 2 share exactly two items, i + 2 and i + 3, and the first of them does not cover item 0 |
| Pagination.CorrectedFetchUrl | src/pages/index.tsx:41 | The corrected URL asks for `offset` = (page − 1) * 3 and `limit` = 3 |
| Pagination.IntendedWindowsTile | src/pages/index.tsx:41 | With the corrected offset, pages 1..k cover items 0..3k − 1 exactly, and no two pages share an item |
| Pagination.CorrectedRunCovers | src/pages/index.tsx:41 | With the corrected offset, the requests of a run that has loaded k pages cover exactly items 0..3k − 1 |

## Left out

- The network request, `response.json()` and the response body. A response is represented only by its number of items. Network and parse errors are not modelled.
- `useInfiniteQuery`'s internals: caching, refetching, `isFetchingNextPage`, `keepPreviousData`, `refetchOnWindowFocus` and the query key. `Pagination.Feed` models only how it sequences page parameters and accumulates pages.
- `handleObserver`, the `IntersectionObserver` and the `useEffect` that wires it up. These are browser events with no computation to model. The handler calls `fetchNextPage` without checking `hasNextPage` or `isFetchingNextPage`. In the model, a fetch with no next parameter leaves the data unchanged (`Pagination.FetchNext`).
- Rendering: the JSX, the `antd` components, `styled-components` styling, and the `next/image` loading behaviour.
- `src/pages/_app.tsx` and `next.config.js`. They are configuration and wiring and are not part of this model.
- Base64.Triplet: its arguments are limited to integers 0..255. JavaScript accepts any number: it would truncate to 32 bits for the bit operations, and `charAt` would give `""` for a negative index. The code only ever passes colour components and the constants 0 and 255.
- BlurPlaceholder.RgbDataURL: `r`, `g` and `b` are limited to 0..255, for the same reason as above.
- Pagination.FetchItems: page numbers are unbounded integers. JavaScript numbers beyond 2^53, and non-integer numbers, are not modelled; the query only produces the page numbers 1, 2, 3, ….
- The bit operators in `JsBits` are defined on non-negative integers without 32-bit wrap-around. Every value `triplet` computes from bytes is below 256, where JavaScript's 32-bit operators agree with these definitions.

## Findings

| source | as written | input that shows it | evidently intended | confidence | as-written member | corrected member |
|---|---|---|---|---|---|---|
| src/pages/index.tsx:41 | The request sends the page number as `offset`, while `limit` is the page size 3 | Pages 1 and 2 request `offset=1&limit=3` and `offset=2&limit=3`. Items 2 and 3 come back twice, and item 0 is never requested | `offset=(page - 1) * 3`, so that consecutive pages follow each other | high for the overlap in the requests; the API's offset semantics are outside this model; not executed | Pagination.ConsecutiveRequestsOverlap | Pagination.CorrectedRunCovers |

`Pagination.RequestsOfRun` adds that no request of any run, the last
included, covers item 0.

`Pagination.FetchItems` and `Pagination.Feed` keep the URL as written,
because they model what the component does. The corrected request is
`Pagination.CorrectedFetchUrl`. `Pagination.IntendedWindowsTile` and
`Pagination.CorrectedRunCovers` prove that, with the corrected request, the
pages of a run cover the catalogue without gaps or repeats.
