# Sales-rep portal core: roster, assignment filter, multipass token

A Dafny model of the logic of `server.js`, the server of a sales portal. A
logged-in sales representative sees the storefront customers assigned to them
and can sign in to the storefront as one of those customers with a multipass
token. The model covers three parts of that file:

- **Assignment filter** (`SalesRepFilter`): `customerBelongsToRep`. It takes the
  first `sales_reps` metafield of a customer, lower-cases its value, splits it on
  newline, comma and semicolon, trims each piece, and looks for the rep's
  lower-cased email among the pieces.
- **Roster read** (`Pagination`): `fetchCustomers` builds the GraphQL query for
  one cursor, and `getAllCustomers` follows `endCursor` from page to page.
  `getAllCustomers` is an imperative method. It is proved against `Fetched`,
  which gives the pages read after `k` turns of the loop. The remote store is a
  function from query text to a page or an error.
- **Multipass token** (`Multipass`, `Base64Url`): the key split of the secret's
  SHA-256 digest, PKCS#7 padding, CBC chaining and the `iv ‖ ciphertext ‖ tag`
  layout, encoded as base64url. SHA-256, the AES block function and HMAC are
  parameters with fixed output sizes. The consumer's check-and-decrypt (`Open`)
  is modelled as the token's inverse.

`Customers` holds the records the query returns. `Wrappers` holds `Option` and
`Result`: `None` stands for JavaScript's `null`/`undefined`, and `Failure` for a
thrown exception.

Where the behaviour one would expect of these operations differs from what
the code does, the model follows the code:

- One would expect a limit of 150 to return at most 150 records. The code
  checks the limit only before a request and does not truncate, so with pages of
  100, 100 and 37 customers it returns 200. `ThreePagesOverLimit` proves that.
- One would expect the limit to stop the loop even if the store never reports an
  end. In the code, a store that keeps sending empty pages with `hasNextPage` set
  keeps the loop running forever: `EmptyPagesNeverHalt` proves that no number of
  turns stops it when the limit is positive. `GetAllCustomers` therefore takes,
  as a precondition, a number of turns after which the loop has stopped.
- One would expect both sides of the comparison to be trimmed and lower-cased.
  The code lower-cases the rep's email but does not trim it.
  `MatchedRepIsWholeToken` shows that an email with surrounding whitespace never
  matches.
- One would expect the assignment field to be read as a set of addresses. The
  code works on the raw text, so an address that is only part of a listed entry
  does not match (`BelongsToRepIffListed` requires exact equality with a whole
  entry).

`Base64Url.Value`, `Base64Url.Decode`, `Multipass.CbcDecrypt`, `Multipass.Unpad`
and `Multipass.Open` model no line of `server.js`, which only encodes and
encrypts: they are the storefront's side of the token, the inverse against which
`ValueChar`, `RoundTrip`, `CbcRoundTrip`, `OpenToken` and `MultipassOpens` are
stated.

## Model

| member | source | states |
|---|---|---|
| `SalesRepFilter.Split` | server.js:135 | the split has at least one piece and no piece contains `\n`, `,` or `;` |
| `SalesRepFilter.SplitSegments` | server.js:135 | a string is a piece of the split iff it is a maximal delimiter-free stretch of the input: it starts at the beginning or after a delimiter and ends at the end or before one |
| `SalesRepFilter.TrimStart` | server.js:136 | the result is the suffix left after removing only leading whitespace, and it does not start with whitespace |
| `SalesRepFilter.TrimEnd` | server.js:136 | the result is the prefix left after removing only trailing whitespace, and it does not end with whitespace |
| `SalesRepFilter.Lower` | server.js:134 | the result has the same length, contains no upper-case ASCII letter, and keeps every other character in place; `CaseVariantLower` fixes each capital to its lower-case letter |
| `SalesRepFilter.Trim` | server.js:136 | the result is no longer than the input, does not start or end with whitespace, and is the input itself when that has no whitespace at either end; `TrimStart` and `TrimEnd` characterise the two halves |
| `SalesRepFilter.FindByKey` | server.js:128-130 | returns the index of the first metafield with the key, or `None` iff no metafield has it |
| `SalesRepFilter.SalesRepsField` | server.js:128-130 | the field found has key `sales_reps` and is one of the customer's metafields; there is none iff the metafields are missing or none has that key |
| `SalesRepFilter.Tokens` | server.js:133-136 | one token per piece of the split of the lower-cased value, so at least one; `TokensListed` characterises the tokens without the split |
| `SalesRepFilter.ValueMatches` | server.js:131-137 | only a truthy value can match; `BelongsToRepIffListed` states exactly which emails match |
| `SalesRepFilter.BelongsToRep` | server.js:127-138 | false when the metafields are missing or none has key `sales_reps`; true only if that field exists and has a non-empty value |
| `SalesRepFilter.BelongsToRepIffListed` | server.js:131-137 | true iff the first `sales_reps` value is non-empty and some maximal delimiter-free stretch of its lower-cased text, once trimmed, equals the lower-cased rep email exactly |
| `SalesRepFilter.TokensListed` | server.js:133-136 | a string is among the trimmed pieces iff it is the trim of some delimiter-free stretch of the lower-cased value |
| `SalesRepFilter.FirstFieldDecides` | server.js:128-131 | only the first `sales_reps` metafield decides: metafields before it with other keys, and anything after it, are ignored |
| `SalesRepFilter.MatchedRepIsWholeToken` | server.js:133-137 | an email that contains a delimiter, or has leading or trailing whitespace, never matches |
| `SalesRepFilter.RepCaseIrrelevant` | server.js:137 | changing the case of ASCII letters in the rep email does not change the result |
| `SalesRepFilter.ValueCaseIrrelevant` | server.js:134 | changing the case of ASCII letters in the metafield value does not change the result |
| `SalesRepFilter.WorkedExample` | server.js:127-138 | the field `Rep.One@x.com; rep.two@x.com\nrep.three@x.com` belongs to exactly the reps whose lower-cased email is one of its three addresses |
| `SalesRepFilter.WorkedExampleReps` | server.js:127-138 | that field matches `REP.ONE@X.COM`, `rep.two@x.com` and `Rep.Three@x.com`, and rejects `rep.four@x.com` |
| `Pagination.CustomersArguments` | server.js:96 | the arguments start with `first: 100` and are only that iff the cursor is falsy; `ArgumentsRoundTrip` reads the cursor back |
| `Pagination.CustomersQuery` | server.js:94-109 | definition: the fixed query template around the arguments; `QueryDeterminesCursor` states that the text determines the cursor |
| `Pagination.EffectiveCursor` | server.js:96 | a falsy cursor (`null` or `""`) counts as no cursor; any other cursor is kept as it is |
| `Pagination.ArgumentsRoundTrip` | server.js:96 | the arguments always start with `first: 100`, and the cursor read back from them is the cursor if it is truthy and none otherwise |
| `Pagination.QueryDeterminesCursor` | server.js:94-109 | two cursors give the same query text iff they agree once a falsy cursor is treated as none |
| `Pagination.Flatten` | server.js:113-119 | definition: the nodes of the pages read, in page order; its general content is the definition itself, pinned down for one, two and three pages by `FlattenOne`, `FlattenTwo` and `FlattenThree` |
| `Pagination.NextCursor` | server.js:114-121 | the cursor is `null` before any page is read; after that it is, by definition, the last page's `endCursor` |
| `Pagination.MoreRequested` | server.js:115-117 | definition: the loop guard over the pages read; `RosterSize` and `StoppedExcludesFailing` state its consequences |
| `Pagination.Fetched` | server.js:113-121 | the outcome of `k` turns of the loop: nothing is read before the first turn and at most one page per turn; `FetchedIsChain` and `FetchedStable` state what is read |
| `Pagination.Roster` | server.js:118-123 | `getAllCustomers` rejects iff a page request failed, with that request's error and no partial list |
| `Pagination.GetAllCustomers` | server.js:112-124 | the loop's result is the roster of `Fetched` after the given number of turns: all nodes read, or the error of the failing request |
| `Pagination.FetchedStable` | server.js:117 | once the loop has stopped, further turns change nothing |
| `Pagination.FetchedIsChain` | server.js:113-121 | the pages read form a chain: the guard held before each request, the first query uses the `null` cursor and each later one the previous page's `endCursor`; a failure is the answer to the next request in the chain |
| `Pagination.FailedAfter` | server.js:117-118 | a failed read comes with the chain it failed after: the guard held after that chain, and its next request answered with the error |
| `Pagination.RosterIsChain` | server.js:112-124 | success means the nodes of a stopped chain, in page order and not truncated; failure means the error of the request after a chain, with no partial list |
| `Pagination.StoppedExcludesFailing` | server.js:117-121 | a chain on which the loop still asks for more is a strict prefix of any stopped chain, and its next request is answered with the next page |
| `Pagination.FailingChainUnique` | server.js:117-118 | two chains whose next request fails are the same chain |
| `Pagination.StoppedChainSucceeds` | server.js:112-124 | for any number of turns after which the loop has stopped (`Halts`), a stopped chain of the store means `getAllCustomers` resolves to that chain's nodes in page order; `StoppedChainHalts` gives such a number |
| `Pagination.FailingRequestFails` | server.js:117-118 | for any number of turns after which the loop has stopped (`Halts`), a failing request on the loop's chain means `getAllCustomers` rejects with that request's error; `FailingChainHalts` gives such a number |
| `Pagination.ChainFetched` | server.js:113-121 | after `n` turns the loop has read exactly the first `n` pages of any chain at least that long |
| `Pagination.StoppedChainHalts` | server.js:115-121 | a stopped chain is what the loop has read after as many turns as it has pages, and the loop has halted there |
| `Pagination.FailingChainHalts` | server.js:117-118 | if the request after a chain fails, the loop has halted one turn after the chain, with that request's error |
| `Pagination.EmptyPagesFetched` | server.js:117-121 | against a store that always answers with an empty page saying more follow, `k` turns read exactly `k` such pages, for a positive limit |
| `Pagination.EmptyPagesNeverHalt` | server.js:115-121 | with a positive limit, a store that answers every query with an empty page saying more follow keeps the loop running: it has not stopped after any number of turns |
| `Pagination.StoppedChainUnique` | server.js:117-121 | there is only one stopped chain for a given store and limit, so the roster is fully determined |
| `Pagination.RosterSize` | server.js:115-122 | no page is read iff `limit <= 0`; otherwise the first page answers the `null`-cursor query and the roster has fewer than `limit` plus the size of the last page |
| `Pagination.RosterBelowLimitPlusPage` | server.js:96-122 | if pages hold at most 100 customers, the roster has fewer than `limit + 100` for a positive limit, and is empty otherwise |
| `Pagination.ThreePagesUnderLimit` | server.js:112-124 | pages of 100, 100 and 37 with limit 1000: three requests, 237 customers in order |
| `Pagination.ThreePagesOverLimit` | server.js:117-119 | the same pages with limit 150: the loop stops after two pages and returns 200 customers |
| `Pagination.ThreePagesSecondFails` | server.js:118 | an error on the second page fails the whole read |
| `Base64Url.Char` | server.js:159 | each 6-bit value maps to a character of the URL-safe alphabet |
| `Base64Url.ValueChar` | server.js:159 | the character of a 6-bit value decodes back to that value |
| `Base64Url.Encode` | server.js:159 | `n` bytes encode to `(4n + 2) / 3` characters, all from the URL-safe alphabet, with no `=` padding |
| `Base64Url.RoundTrip` | server.js:159 | decoding the encoding of any byte string gives that byte string back |
| `Base64Url.EncodeVectorsShort` | server.js:159 | the encodings of `""`, `f` and `fo` are `""`, `Zg` and `Zm8`, as in the test vectors of section 10 of RFC 4648 |
| `Base64Url.EncodeVectorsOneGroup` | server.js:159 | `foo` and `foob` encode to `Zm9v` and `Zm9vYg` |
| `Base64Url.EncodeVectorsTwoGroups` | server.js:159 | `fooba` and `foobar` encode to `Zm9vYmE` and `Zm9vYmFy` |
| `Base64Url.EncodeVectorUrlSafe` | server.js:159 | the bytes `fb ff` encode to `-_8`, so 62 is `-` and 63 is `_` |
| `Multipass.DeriveKeys` | server.js:142-155 | the encryption key (16 bytes) followed by the signing key gives back the 32-byte SHA-256 digest of the secret, so the signing key is 16 bytes |
| `Multipass.Pad` | server.js:149-152 | PKCS#7 padding keeps the message as a prefix and pads to the next multiple of 16 (1 to 16 bytes), each pad byte holding the pad length |
| `Multipass.UnpadPad` | server.js:149-152 | removing the padding gives back the message |
| `Multipass.XorBlockTwice` | server.js:148 | XOR with the same block twice gives the original block |
| `Multipass.CbcEncrypt` | server.js:148-152 | CBC chaining keeps the length of the padded plaintext |
| `Multipass.CbcRoundTrip` | server.js:148-152 | if the block function has an inverse, CBC decryption with the same key and IV gives back the plaintext |
| `Multipass.Aes128CbcEncrypt` | server.js:148-152 | an `n`-byte plaintext gives `16 * (n / 16 + 1)` bytes of ciphertext |
| `Multipass.TokenBytes` | server.js:141-159 | the token is 16 IV bytes, then the ciphertext under the first digest half, then the HMAC under the second half over everything before it; total length `48 + 16 * (n / 16 + 1)` |
| `Multipass.Multipass` | server.js:141-160 | fails iff the secret is missing; otherwise a URL-safe string of the stated length that decodes to the token bytes |
| `Multipass.OpenToken` | server.js:147-159 | if the block function has an inverse, checking the tag and decrypting a token with the same secret gives back the payload |
| `Multipass.MultipassOpens` | server.js:141-160 | the multipass string can be decoded and opened, and gives back the payload |
| `Multipass.TamperedTagRejected` | server.js:154-159 | a token whose tag bytes alone are changed is rejected |

## Left out

- Express routes, middleware, sessions, cookies and the `/go` redirect
  (server.js:11-25, server.js:162-293). This includes the `/customers` route
  filtering the roster with the assignment test against the session email
  (server.js:197-198), and the `POST /login` handler lower-casing the login email
  before storing it in the session (server.js:188). This is HTTP glue.
- The bcrypt password check (server.js:31-34, server.js:185): a foreign library call.
- HTML rendering, the client-side `filter()` script and the translations with the
  `lang` lookup (server.js:37-72, server.js:201-275): user interface.
- The `gql` transport (server.js:75-90): the HTTP POST, the access token and the
  JSON decoding. Only its outcome is modelled, as a page or a `FetchError`.
- Pagination.GetAllCustomers: requires that the loop stops within a given number
  of turns. A store that keeps answering with empty pages that say more follow
  makes the source loop forever (`EmptyPagesNeverHalt`), and the method does not
  model that run.
- Pagination.GetAllCustomers: assumes the store answers the same query the same
  way throughout one roster read. Concurrent changes to the store are not modelled.
- A page with `hasNextPage` missing makes the source stop
  quietly, because `undefined` is falsy. The model's pages always carry a boolean.
- Only the first ten `custom` metafields that the query requests (server.js:103)
  reach the filter. The model takes the metafield list as it arrives.
- JavaScript `toLowerCase` maps non-ASCII letters by the full Unicode tables
  (some to several characters). The model lower-cases ASCII letters only and
  leaves every other character alone. Trimming uses the full ECMAScript
  whitespace and line-terminator set.
- SHA-256, the AES-128 block function, HMAC-SHA-256 and `crypto.randomBytes` are
  parameters with fixed output sizes. Their internals are foreign crypto and
  randomness; the random IV is an argument.
- `JSON.stringify` of the `{ email, created_at }` payload, the clock reading
  `new Date().toISOString()`, and the UTF-8 encoding of the payload and of the
  secret string are not modelled. The payload and the secret arrive as bytes.
- Multipass.TamperedTagRejected: rejects only tampering confined to the tag.
  Rejecting changed IV or ciphertext bytes depends on HMAC being unforgeable,
  which cannot be derived from an abstract function.
- Configuration through `dotenv` and `process.env`. The secret is an argument,
  and a missing secret gives `MissingSecret`. The limit is an argument;
  `DefaultLimit` records the 1000 the route uses.
- `async`/`await` scheduling. The model reads pages one after another, as the
  code does.
