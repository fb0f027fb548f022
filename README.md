# Nance URL helpers, modelled in Dafny

This project models `libs/nance.ts`, a file of the Nance governance dashboard.
It holds four pure string helpers:

- `getLastSlash(url)` turns an external voting URL (a Snapshot proposal link)
  into a short identifier. It gives the empty string back unchanged. Any other
  input is split on `/`, and the last piece is trimmed.
- `urlOfUpload(space)`, `urlOfQuery(space, cycle)` and `urlOfContent(space, hash)`
  build the REST endpoints of a governance space against the configured API
  origin `NANCE_API_URL`.

Files:

- `wrappers.dfy`: the `Option` datatype. It stands for TypeScript's `number | undefined`.
- `jsstring.dfy` (module `JsString`): the JavaScript built-ins the extractor uses.
  `Split` is `String.prototype.split` with a one-character separator, and `Join`
  is its inverse. `Trim` is `String.prototype.trim`, with `IsWs` as its
  whitespace set. `LastSegment` is a second definition of "the text after the
  last separator", and lemmas tie it to the last piece of `Split`.
- `decimal.dfy` (module `Decimal`): `IntToString` is the text an integer gets
  inside a template string. `ParseInt` reads that text back.
- `nance.dfy` (module `Nance`): the four helpers `GetLastSlash`, `UrlOfUpload`,
  `UrlOfQuery` and `UrlOfContent`, and the lemmas about them.

Modelling choices:

- The imported constant `NANCE_API_URL` is the first parameter, `base`, of every builder.
- The optional cycle is an `Option<int>`. `Truthy` gives its JavaScript
  truthiness: `None` and `Some(0)` are falsy.
- `CycleParam` is the cycle a query URL really carries: none for a falsy
  cycle, the cycle itself otherwise.
- `QueryCycle` is a reference decoder that reads the `cycle` parameter of a
  query URL back. It does not exist in the source. It accepts leading zeros
  and `-0`, which no builder produces. It is the partner against
  which the query builder is proved.
- `IsWs` is concrete: the ECMAScript WhiteSpace code points (TAB, VT, FF,
  SPACE, NO-BREAK SPACE, ZERO WIDTH NO-BREAK SPACE and the Unicode category Zs)
  plus its LineTerminator code points (LF, CR, U+2028, U+2029).
- The source handles `0` as "no cycle", and the model keeps that behaviour.
  `QueryZeroIsAbsent` states it.
- The source does not escape `space` or `hash`, and neither does the model.
  `ContentCollision` shows two different (space, hash) pairs that yield the same content URL.

## Model

| member | source | states |
|---|---|---|
| JsString.Split | libs/nance.ts:6 | `split('/')` yields at least one piece, and no piece contains the separator |
| JsString.JoinSplit | libs/nance.ts:6 | joining the pieces of a split with the separator gives the input back, so nothing is lost or reordered |
| JsString.SplitFree | libs/nance.ts:6 | a string without the separator splits into exactly one piece, itself |
| JsString.SplitLastPiece | libs/nance.ts:6-7 | the last piece of a split is a suffix of the input; it is the whole input when there is one piece, and otherwise it starts right after a separator |
| JsString.LastSegment | libs/nance.ts:7 | the text after the last separator contains no separator |
| JsString.LastSegmentPlacement | libs/nance.ts:7 | the last segment is a suffix of the input, and it starts either at the beginning of the input or right after a separator |
| JsString.LastSegmentUnique | libs/nance.ts:7 | any separator-free suffix that starts at the beginning or right after a separator is the last segment |
| JsString.LastPieceIsLastSegment | libs/nance.ts:6-7 | `split[split.length - 1]` is exactly the text after the last separator, or the whole input when there is none |
| JsString.LeadingWsSpec | libs/nance.ts:7 | the leading run that `trim` removes is all whitespace, and it is maximal |
| JsString.TrailingWsSpec | libs/nance.ts:7 | the trailing run that `trim` removes is all whitespace, and it is maximal |
| JsString.TrimSlice | libs/nance.ts:7 | `trim` keeps a contiguous slice of its input, removes only whitespace on both sides, and leaves no whitespace at either end |
| JsString.TrimOfTrimmed | libs/nance.ts:7 | `trim` leaves a string without whitespace at its ends unchanged |
| JsString.TrimIdempotent | libs/nance.ts:7 | trimming twice gives the same result as trimming once |
| JsString.TrimKeepsFree | libs/nance.ts:7 | trimming introduces no character that was not in the input; a `/`-free string stays `/`-free |
| Decimal.NatToString | libs/nance.ts:15 | the decimal text of a natural number is a non-empty run of digits with no leading zero |
| Decimal.DigitsValueOfNatToString | libs/nance.ts:15 | the digits of a natural number read back as that number |
| Decimal.IntToStringShape | libs/nance.ts:15 | the text of an integer starts with `-` exactly when the integer is negative, and the rest is digits |
| Decimal.ParseIntToString | libs/nance.ts:15 | parsing the text of any integer gives the integer back |
| Decimal.IntToStringInjective | libs/nance.ts:15 | distinct cycle numbers have distinct texts |
| Nance.GetLastSlashIsTrimmedLastSegment | libs/nance.ts:3-8 | the empty string is returned unchanged; any other input gives the trimmed text after its last `/` |
| Nance.GetLastSlashNoSlash | libs/nance.ts:6-7 | an input without `/` gives the trimmed input |
| Nance.GetLastSlashAfterLastSlash | libs/nance.ts:6-7 | for `front + "/" + tail` with a `/`-free tail, the result is the trimmed tail, whatever `front` holds |
| Nance.GetLastSlashTrailingSlash | libs/nance.ts:6-7 | an input ending in `/` gives the empty identifier |
| Nance.GetLastSlashShape | libs/nance.ts:6-7 | the result has no `/` and no whitespace at either end; for non-empty input it is a contiguous slice of the final segment, with only whitespace cut off on either side |
| Nance.GetLastSlashIdempotent | libs/nance.ts:3-8 | extracting the identifier twice gives the same result as extracting it once |
| Nance.GetLastSlashSnapshotExample | libs/nance.ts:3-8 | the Snapshot URL `https://snapshot.org/#/jbdao.eth/proposal/0xABC` with two trailing blanks gives `0xABC` |
| Nance.TrimTwoTrailingBlanks | libs/nance.ts:7 | trimming a non-empty, already trimmed identifier followed by two blanks gives the identifier |
| Nance.BuildersSharePrefix | libs/nance.ts:10-20 | all three endpoints start with `base/space/`, which copies `base` and `space` verbatim, and then go on with `upload/`, `query/` or `markdown?hash=` + hash |
| Nance.UploadSpaceRecoverable | libs/nance.ts:11 | the upload URL is `base`, `/`, the space and `/upload/`, so the space can be read back from its position |
| Nance.UploadInjective | libs/nance.ts:11 | with one base, distinct spaces give distinct upload URLs |
| Nance.ContentHashRecoverable | libs/nance.ts:19 | the content URL ends with the hash, copied verbatim after `base/space/markdown?hash=` |
| Nance.ContentCollision | libs/nance.ts:19 | because nothing is escaped, space `a/markdown?hash=b` with hash `c` gives the same URL as space `a` with hash `b/markdown?hash=c` |
| Nance.QueryShape | libs/nance.ts:15 | an absent or zero cycle gives exactly `base/space/query/`; any other cycle gives `base/space/query/?cycle=` followed by text that parses back as that cycle |
| Nance.QueryZeroIsAbsent | libs/nance.ts:15 | cycle `0` gives the same URL as no cycle |
| Nance.QueryCycleRoundTrip | libs/nance.ts:15 | reading the `cycle` parameter back from a query URL gives the cycle the URL carries: none for a falsy cycle, the cycle itself otherwise |
| Nance.QueryInjective | libs/nance.ts:15 | for one base and space, two cycles give the same query URL if and only if they carry the same cycle |
| Nance.QueryExample | libs/nance.ts:15 | `urlOfQuery("myspace", 12)` is `base/myspace/query/?cycle=12` |

The four helpers themselves, `Nance.GetLastSlash`, `Nance.UrlOfUpload`,
`Nance.UrlOfQuery` and `Nance.UrlOfContent` (libs/nance.ts:3-8, 10-12, 14-16,
18-20), are written exactly as the source's expressions. So are the built-ins they
rely on: `JsString.Split` and `JsString.Trim` for the `split('/')` and `trim()`
of libs/nance.ts:6-7, and `Decimal.IntToString` for the `${cycle}` of
libs/nance.ts:15. Their properties are stated by the lemmas above, not by
their own contracts.

## Left out

- The value of `NANCE_API_URL` (libs/nance.ts:1) is not modelled. Its module `constants/Nance` is not part of this model, so every builder takes the origin as the parameter `base`.
- Non-string arguments to the untyped `getLastSlash(url)`, such as `null` and `undefined`, are not modelled. The source passes them through at line 4. The only falsy string, `""`, is modelled.
- Non-integer cycle values are not modelled: fractions, `NaN`, `Infinity` and `-0`. The cycle is an unbounded integer.
- Decimal text for huge cycles is not modelled. JavaScript writes integers of magnitude `1e21` or more in exponent form, and it cannot represent every integer above 2^53. `IntToString` writes plain decimal digits for every integer.
- `IsWs` follows the Zs category of current Unicode. Code points a later Unicode version adds to Zs are not modelled.
- Strings are sequences of Unicode scalar values. A JavaScript string is UTF-16, so a lone surrogate cannot be written in the model. Neither `/` nor any whitespace character is a surrogate, so well-formed strings split and trim the same way in both.
- The dashboard page `pages/nance/[space].tsx` is not part of this model. Among the files shown, it is the only caller of `getLastSlash`. It also classifies status badges and handles cycle pagination in its React rendering.
