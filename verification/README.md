# Reference resolution of the OpenAPI bundler

A Dafny model of the reference-resolution core of the OpenAPI catalog module's
bundler (`bundleFileWithRefs` in
`plugins/catalog-backend-module-openapi/src/lib/bundle.ts`). Four parts are modelled:

- **Reference classifier.** `getProtocol` reads a leading `scheme://` off a
  location with the pattern `^(\w{2,}):\/\/` (case-insensitive) and returns the
  lower-cased scheme, or nothing. The two `canRead` predicates are built on it:
  the file resolver takes locations with no scheme or the scheme `file`; the
  http resolver takes `http` and `https`.
- **Location translation.** `translateLocations` is a literal table from five
  file names to canonical URLs. The http resolver's `read` resolves the
  reference against the base URL. It then walks the table's keys in order and,
  on the first key that is a suffix of the resolved URL, reads the mapped URL
  instead.
- **Resolvers.** The file resolver reads
  `resolveUrl(path.relative('.', url), baseUrl)`. The http resolver reads the
  translated URL. The reader, `resolveUrl` and `path.relative` are function
  parameters the model does not interpret. Each read is recorded in a trace, so
  the contracts say which URL was read and how many times.
- **`subParseCustomLocations`.** A splice loop that replaces each occurrence of
  `http-responses-v2.yaml` that does not directly follow a `/` by that key's
  canonical URL. It is proved equal to a functional reference scan, `Splice.Rewrite`.
  `bundleFileWithRefs` defines it but never calls it.

Modules, in dependency order:

- `Wrappers`: `Option` and `Result`.
- `Strings`: the JavaScript string operations the code uses, over `seq<char>`:
  - `endsWith`;
  - `indexOf`/`includes` with a clamped start position;
  - `charAt`, which returns `""` out of range;
  - ASCII `toLowerCase`.
- `Protocol`: `getProtocol` and the two `canRead` tests.
- `LocationTable`: the literal table and the first-suffix-match lookup.
- `Resolvers`: the two `read` operations and the dispatch of one reference.
- `Splice`: `subParseCustomLocations`.

Decisions worth knowing:

- In JavaScript without the `u` flag, `\w` is `[A-Za-z0-9_]` and the `i` flag
  does not widen it. `:` is not a word character, so a match ends at exactly one
  place: the end of the longest leading word run. This is why `GetProtocol` is
  computed from `WordRun`.
- A `for…in` over the table's object literal visits its keys in insertion
  order. None of the keys is integer-like, so the table is modelled as a
  sequence in declaration order.
- The table is a parameter of `Resolvers.Env`, and `BundlerEnv` fixes it to the
  literal of `bundle.ts`; `Resolvers.KnownLocationRead` is stated over
  `BundlerEnv`. This lets the order-independence and empty-table lemmas be
  stated for any table.
- After an emitted piece, the splice loop's test `charAt(index - 1) !== '/'`
  looks at the last character of the output so far, not of the original text.
  `Rewrite` carries exactly that flag. `RewriteAtOccurrence` shows that, for the
  key and value of `bundle.ts`, the flag equals the character of the original text
  before the occurrence. This holds because the key's first letter appears
  nowhere else in the key, and neither the key nor the value ends with `/`.
- `bundle.ts` has no code for a reference that neither resolver claims: it only
  registers the two resolvers with the reference-parser library (lines
  115-121), and what happens then is that library's dispatch. `Resolvers.ReadRef`
  models the dispatch and tags the library's failure to find a resolver as
  `UnsupportedProtocol`. It does not model the library's error message.

## Model

| member | source | states |
|---|---|---|
| Strings.IndexOf | plugins/catalog-backend-module-openapi/src/lib/bundle.ts:99-100 | `indexOf(p, from)` with the start clamped to the string: -1 exactly when no occurrence starts at or after the start, otherwise the first such occurrence |
| Protocol.SchemeEndIsWordRun | plugins/catalog-backend-module-openapi/src/lib/bundle.ts:24 | the pattern's group can end only at the end of the longest leading run of word characters, so the match is unique |
| Protocol.GetProtocol | plugins/catalog-backend-module-openapi/src/lib/bundle.ts:24-31 | a scheme is returned exactly when the location starts with at least two word characters and then `://`; the result is that prefix lower-cased, of length at least 2, and made only of lower-case word characters |
| Protocol.ProtocolIsPrefix | plugins/catalog-backend-module-openapi/src/lib/bundle.ts:24-31 | for any candidate lower-case scheme of length at least 2, it is the returned scheme exactly when the location starts with `scheme://`, ignoring case |
| Protocol.UpperCaseSchemeExample | plugins/catalog-backend-module-openapi/src/lib/bundle.ts:24-28 | `HTTPS://a` is classified as `https` |
| Protocol.NoSchemeExamples | plugins/catalog-backend-module-openapi/src/lib/bundle.ts:24 | a one-letter scheme (`c://x`), a drive letter (`C:/x`) and a single slash (`ftp:/x`) give no scheme |
| Protocol.CanReadDisjoint | plugins/catalog-backend-module-openapi/src/lib/bundle.ts:63-77 | no location is claimed by both the file and the http resolver |
| Protocol.OtherSchemeUnclaimed | plugins/catalog-backend-module-openapi/src/lib/bundle.ts:63-77 | a location whose scheme is neither `file`, `http` nor `https` is claimed by neither resolver |
| Protocol.FtpUnclaimed | plugins/catalog-backend-module-openapi/src/lib/bundle.ts:63-77 | every `ftp://` location is claimed by neither resolver |
| Protocol.HttpCanReadIffPrefix | plugins/catalog-backend-module-openapi/src/lib/bundle.ts:74-77 | the http resolver claims a location exactly when it starts with `http://` or `https://` in any case |
| Protocol.FileCanReadIffPrefix | plugins/catalog-backend-module-openapi/src/lib/bundle.ts:63-66 | the file resolver claims a location exactly when it has no scheme or starts with `file://` in any case |
| LocationTable.FirstMatch | plugins/catalog-backend-module-openapi/src/lib/bundle.ts:80-81 | the row the key walk stops at is the first row whose key is a suffix of the URL; when there is none, no key is a suffix |
| LocationTable.Translate | plugins/catalog-backend-module-openapi/src/lib/bundle.ts:79-89 | the URL read is the first matching row's location, or the resolved URL itself when no key matches |
| LocationTable.TranslationUnique | plugins/catalog-backend-module-openapi/src/lib/bundle.ts:80-89 | the translation is determined by the URL and the table |
| LocationTable.EmptyTableKeepsUrl | plugins/catalog-backend-module-openapi/src/lib/bundle.ts:80-89 | with no rows, no substitution happens |
| LocationTable.AtMostOneMatch | plugins/catalog-backend-module-openapi/src/lib/bundle.ts:80-81 | in a table where no key is a suffix of another key, at most one row matches any URL |
| LocationTable.SuffixFreeTranslation | plugins/catalog-backend-module-openapi/src/lib/bundle.ts:80-86 | in such a table, a URL ending with a row's key reads that row's location, wherever the row stands |
| LocationTable.TranslateOrderIndependent | plugins/catalog-backend-module-openapi/src/lib/bundle.ts:80-86 | any table holding the same rows as a suffix-free table, in any order and with any repetitions, translates every URL alike |
| LocationTable.KnownKeyNotSuffix | plugins/catalog-backend-module-openapi/src/lib/bundle.ts:38-42 | no literal key is a suffix of another literal key, pair by pair |
| LocationTable.TranslateLocationsSuffixFree | plugins/catalog-backend-module-openapi/src/lib/bundle.ts:37-54 | no key of the bundler's table is a suffix of another of its keys |
| LocationTable.LiteralOrderIndependent | plugins/catalog-backend-module-openapi/src/lib/bundle.ts:37-54 | any reordering of the bundler's table, with or without repeated rows, translates every URL exactly as the table in declaration order does |
| LocationTable.KnownLocationsUnique | plugins/catalog-backend-module-openapi/src/lib/bundle.ts:37-54 | no URL ends with two different keys of the bundler's table |
| LocationTable.HttpResponsesTranslated | plugins/catalog-backend-module-openapi/src/lib/bundle.ts:44-45 | a URL ending with `http-responses-v2.yaml` is read from the common REST API's canonical URL |
| Resolvers.Claimants | plugins/catalog-backend-module-openapi/src/lib/bundle.ts:63-77 | the set of resolvers claiming a location has at most one element and holds exactly the resolvers whose `canRead` accepts it |
| Resolvers.FileRead | plugins/catalog-backend-module-openapi/src/lib/bundle.ts:67-71 | the file resolver reads exactly once, at `resolveUrl(relative('.', url), baseUrl)`, and returns what the reader gives for it |
| Resolvers.FileLocationIgnoresTable | plugins/catalog-backend-module-openapi/src/lib/bundle.ts:67-71 | the file resolver's location does not depend on the translation table |
| Resolvers.HttpRead | plugins/catalog-backend-module-openapi/src/lib/bundle.ts:78-91 | the http resolver reads exactly once: on the first table key that is a suffix of the resolved URL it reads that key's location, otherwise it reads the resolved URL |
| Resolvers.HttpReadsTranslation | plugins/catalog-backend-module-openapi/src/lib/bundle.ts:79-90 | the URL the http resolver reads is the lookup's translation of the resolved URL |
| Resolvers.KnownLocationRead | plugins/catalog-backend-module-openapi/src/lib/bundle.ts:78-91 | in the bundler's environment `BundlerEnv`, a reference resolving to a URL that ends with a known key reads that key's location |
| Resolvers.ReadRef | plugins/catalog-backend-module-openapi/src/lib/bundle.ts:115-121 | a reference claimed by a resolver is read exactly once, by that resolver; one claimed by none fails with an unsupported-protocol error and reads nothing |
| Splice.RewriteWithoutKey | plugins/catalog-backend-module-openapi/src/lib/bundle.ts:99 | a text with no occurrence of the key comes out unchanged |
| Splice.RewriteCopiesPlain | plugins/catalog-backend-module-openapi/src/lib/bundle.ts:99-100 | the text before the first occurrence is copied unchanged |
| Splice.RewriteAtOccurrence | plugins/catalog-backend-module-openapi/src/lib/bundle.ts:99-110 | every occurrence of the key splits the result: the text before it, then the occurrence kept when the original text has `/` just before it and replaced by the value otherwise (also at the very start), then the text after it, scanned afresh |
| Splice.HttpResponsesSpliceSafe | plugins/catalog-backend-module-openapi/src/lib/bundle.ts:100-109 | the key of `bundle.ts`, its canonical URL and the hard-coded length 22 fit the shape under which occurrences cannot overlap and verdicts can be read off the original text |
| Splice.SpliceLoop | plugins/catalog-backend-module-openapi/src/lib/bundle.ts:96-112 | the splice loop terminates and computes the reference scan of the text |
| Splice.SubParseCustomLocations | plugins/catalog-backend-module-openapi/src/lib/bundle.ts:94-113 | `subParseCustomLocations` returns the reference scan with the key and URL of `bundle.ts`, and returns a text with no occurrence unchanged |

## Left out

- `$RefParser.bundle` (line 136) is not modelled: the recursive `$ref` walk, its sharing of repeated locations, and its caching. It is the reference-parser library's algorithm, not the bundler's code. Only the dispatch of one reference to the two registered resolvers is modelled, in `Resolvers.ReadRef`.
- `continueOnError: false` (line 116) is not modelled: it controls the library's error propagation across references.
- Parsing the document (line 125) and serialising the result (line 139) are left out. They are calls into the `yaml` package.
- `path.relative`, `resolveUrl` and the reader are function parameters with no interpretation. Real path and URL arithmetic is outside the bundler.
- The model is synchronous: `async`/`await` adds no branching here. A rejected read promise is the reader's behaviour, so read failures are not modelled.
- The `console.log` calls (lines 82, 106, 137-138) and the unused `counter` (lines 97, 106) have no effect on results.
- Strings.IndexOf: strings are Dafny `seq<char>`, sequences of Unicode scalar values, while JavaScript strings are sequences of UTF-16 code units. So positions given to and returned by `indexOf`, `charAt` and `slice` count scalar values rather than code units: in `"😀http-responses-v2.yaml"`, JavaScript's `indexOf` gives 2 and the model gives 1. Lone surrogates cannot be represented. The splice's output does not depend on this: the positions are used only to cut and join the same string, and the key, the value and the `/` test are all ASCII.
- `slice` is modelled as Dafny slicing without JavaScript's clamping: the loop only slices inside the string, so clamping never applies.
- Splice.RewriteAtOccurrence: the reading "kept exactly when the original text has `/` before the occurrence" is proved only for keys and values of the `SpliceSafe` shape. The pair in `bundle.ts` has that shape (`Splice.HttpResponsesSpliceSafe`). `Splice.Rewrite` itself models any key and value.
- Splice.SpliceLoop: takes the key and value as parameters but requires the key to have the hard-coded length 22 of `bundle.ts`. For other key lengths the general loop would differ from the code.
