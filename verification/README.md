# Token search dialog: a Dafny model

This project models the search logic of the token-picker dialog
(`TokenSearcher`) in `src/components/TokenSearchDialog/index.tsx`. The dialog
searches one of two token lists, chosen by network (Ethereum or Gravity
Bridge). The user searches by name, symbol or contract address and picks a token.

The model is functional. Each piece is a pure function:

- `Text`: ASCII lower-casing and left-to-right substring search. These are the
  string primitives the filter uses.
- `Tokens`: the token record, the network selector and `Option`.
- `Address`: `isEthAddress`. The regular expression `^0x[a-fA-F0-9]{40}$` is
  written as a sequence of one-character atoms, matched against the whole text.
- `TokenFilter`: `filterTokenList`. It keeps a token when its lower-cased
  name or symbol contains the lower-cased text.
- `TokenSearch`: the parts of the component itself.
  - `getCandidateByNetwork` and `setCandidateByNetwork`.
  - The list part of `findTokenInfo`.
  - How the lookup promise settles into a candidate list.
  - The keystroke dispatch, pulled out as `ComputeCandidates`.
  - The handlers `onSearchTextChange`, `onTokenSelect` and `onClose`, and the
    re-seed effect. Each handler returns its effects (state setters and
    callback calls) in the order the component performs them. `Apply`
    replays the setters on the dialog state `(searchText, candidates)`.
- `DialogSession`: the relation between candidates and search text over a
  whole run of events. It holds corrected dismissal and re-seed handlers and
  the proof that every run built from them keeps the relation (see Findings).
- `Scenarios`: concrete inputs. These are a worked search over a one-token
  list, and the counterexamples behind the findings.

The address resolver (`ethWalletManager.getERC20Info`) is an input of type
`ResolverOutcome`: `Found(token)`, `Absent` (it answered `undefined` or
`null`) or `Failed` (the promise rejected). The two token lists and the
network are parameters.

Behaviour worth knowing, as the code has it:

- The address pattern accepts hex digits in either case, but the prefix must
  be lower-case `0x`. The expression has no `i` flag, so `0X…` is not an
  address and goes to the substring filter. There is no checksum test.
- The list lookup compares addresses with `===`. An address typed in a
  different letter case from the list entry misses the list, and the answer
  comes from the resolver alone (`Scenarios.EtherCapitalAddressMissesList`).
- Picking a token calls `select` and then `close`. It does not clear the
  search text; only dismissal does.

## Model

| member | source | states |
|---|---|---|
| Text.Lower | src/components/TokenSearchDialog/index.tsx:119-121 | The lower-cased string has the same length; each character is its ASCII lower case, and no ASCII capital remains |
| Text.LowerIdempotent | src/components/TokenSearchDialog/index.tsx:119-121 | Lower-casing an already lower-cased string changes nothing |
| Text.FirstCharAbsentNotIncluded | src/components/TokenSearchDialog/index.tsx:120-121 | A needle whose first character does not occur in the haystack is never included |
| Text.Includes | src/components/TokenSearchDialog/index.tsx:120-121 | `_.includes` on strings: scans the start positions from left to right. It has no contract of its own; `Text.IncludesIffOccurs` states what it computes |
| Text.IncludesIffOccurs | src/components/TokenSearchDialog/index.tsx:120-121 | The left-to-right scan used for `_.includes` holds exactly when the needle occurs at some position of the haystack (both directions) |
| Address.AddressRegex | src/components/TokenSearchDialog/index.tsx:109 | The expression is 42 atoms: literal `0`, literal `x`, then forty `[a-fA-F0-9]` classes |
| Address.FullMatch | src/components/TokenSearchDialog/index.tsx:109 | An anchored match of one-character atoms means equal length and every character accepted by the atom at its position |
| Address.IsEthAddress | src/components/TokenSearchDialog/index.tsx:108-110 | `isEthAddress`: an anchored match of `Address.AddressRegex`. It has no contract of its own; `Address.IsEthAddressIff` gives its character-level meaning |
| Address.IsEthAddressIff | src/components/TokenSearchDialog/index.tsx:108-110 | `isEthAddress(s)` holds exactly when `s` has 42 characters, starts with `0x` and the other 40 are hex digits of either case |
| Address.AddressDigitsUnconstrained | src/components/TokenSearchDialog/index.tsx:109 | Replacing any one of the forty digits of an address by any hex digit, including the same letter in the other case, leaves an address: the digits carry no checksum |
| Address.UpperCasePrefixRejected | src/components/TokenSearchDialog/index.tsx:109 | Text whose second character is `X` is never an address |
| TokenFilter.Matches | src/components/TokenSearchDialog/index.tsx:118-121 | The filter's per-token test: the lower-cased text is included in the lower-cased name or in the lower-cased symbol. It has no contract of its own; `TokenFilter.KeptPositionsExact` and `TokenFilter.FilterMembership` state what the filter does with it |
| TokenFilter.FilterTokenList | src/components/TokenSearchDialog/index.tsx:117-123 | `filterTokenList`: the result is never longer than the list; `TokenFilter.FilterMembership`, `TokenFilter.KeptPositionsExact` and `TokenFilter.FilterTakesKeptPositions` state that it is exactly the matching tokens in list order |
| TokenFilter.FilterMembership | src/components/TokenSearchDialog/index.tsx:117-123 | A token is in the result exactly when it is in the list and its lower-cased name or symbol contains the lower-cased text; a dropped token matches neither field |
| TokenFilter.KeptPositions | src/components/TokenSearchDialog/index.tsx:118 | The kept positions lie inside the list and strictly increase, so the filter keeps list order |
| TokenFilter.KeptPositionsExact | src/components/TokenSearchDialog/index.tsx:118-121 | A position is kept if and only if its token matches the text |
| TokenFilter.FilterTakesKeptPositions | src/components/TokenSearchDialog/index.tsx:117-123 | The result has one token per kept position, and its k-th token is the list's token at the k-th kept position: it is a subsequence holding exactly the matches |
| TokenFilter.FilterAppend | src/components/TokenSearchDialog/index.tsx:118 | Filtering a concatenation equals concatenating the filtered parts |
| TokenFilter.FilterIdempotent | src/components/TokenSearchDialog/index.tsx:117-123 | Filtering the result again with the same text returns it unchanged |
| TokenFilter.FilterIgnoresQueryCase | src/components/TokenSearchDialog/index.tsx:119 | Filtering by a text and by its lower-cased form give the same result |
| TokenFilter.FilterEmptyTextKeepsAll | src/components/TokenSearchDialog/index.tsx:117-123 | Empty text keeps every token |
| TokenSearch.GetCandidateByNetwork | src/components/TokenSearchDialog/index.tsx:140-148 | Ethereum gives the Ethereum list, Gravity Bridge gives the Gravity Bridge list, any other network gives `[]` |
| TokenSearch.SetCandidateByNetwork | src/components/TokenSearchDialog/index.tsx:125-138 | Its own three-way branch hands the setter exactly the list `getCandidateByNetwork` returns |
| TokenSearch.FindInList | src/components/TokenSearchDialog/index.tsx:113 | The lookup finds nothing exactly when no token's address equals the text; a found token is in the list and has that address; when several tokens share the address it returns the first in list order |
| TokenSearch.FindTokenInfo | src/components/TokenSearchDialog/index.tsx:112-115 | `findTokenInfo`: when position i holds the first token with exactly this address, the promise fulfils with that token whatever the resolver would answer; when no token has the address, the promise settles as the resolver's own |
| TokenSearch.SettledCandidates | src/components/TokenSearchDialog/index.tsx:49-51 | A lookup that yields a token gives a one-element list holding it; yielding nothing or rejecting gives `[]` |
| TokenSearch.ComputeCandidates | src/components/TokenSearchDialog/index.tsx:45-55 | Empty text gives the active list; address-shaped text gives at most one candidate; any other text gives the filter of the active list |
| TokenSearch.EmptyTextShowsActiveList | src/components/TokenSearchDialog/index.tsx:46-47 | For empty text the candidates are the network's own list (`[]` on an unsupported network), whatever the resolver |
| TokenSearch.AddressHitIgnoresResolver | src/components/TokenSearchDialog/index.tsx:112-114 | When the list has a token with exactly this address, the candidates are the first such token alone, for every resolver answer |
| TokenSearch.AddressMissUsesResolver | src/components/TokenSearchDialog/index.tsx:48-51 | With no list hit, a found token becomes the only candidate; absence or failure gives `[]` |
| TokenSearch.TextSearchKeepsExactlyMatches | src/components/TokenSearchDialog/index.tsx:52-54 | For non-empty non-address text, a token is a candidate exactly when it is in the active list and its name or symbol contains the text, case-insensitively |
| TokenSearch.OnSearchTextChange | src/components/TokenSearchDialog/index.tsx:41-56 | `onSearchTextChange` as its effects. It has no contract of its own; `TokenSearch.KeystrokeSetsTextAndCandidates` states its outcome |
| TokenSearch.OnTokenSelect | src/components/TokenSearchDialog/index.tsx:58-61 | `onTokenSelect` as its effects. It has no contract of its own; `TokenSearch.SelectCallsSelectThenClose` states its outcome |
| TokenSearch.OnClose | src/components/TokenSearchDialog/index.tsx:63-66 | `onClose` as its effects. It has no contract of its own; `TokenSearch.DismissClearsTextBeforeClose` states its outcome |
| TokenSearch.Reseed | src/components/TokenSearchDialog/index.tsx:35-39 | The delayed `setCandidateByNetwork` call of the effect. It has no contract of its own; `TokenSearch.ReseedShowsActiveList` states its outcome |
| TokenSearch.KeystrokeSetsTextAndCandidates | src/components/TokenSearchDialog/index.tsx:41-56 | After a keystroke the field shows the event's text (`""` when it has none), the candidates are the dispatch's, and no callback is called |
| TokenSearch.SelectCallsSelectThenClose | src/components/TokenSearchDialog/index.tsx:58-61 | Picking calls `select(token)` then `close`, once each, and changes neither text nor candidates |
| TokenSearch.DismissClearsTextBeforeClose | src/components/TokenSearchDialog/index.tsx:63-66 | Dismissal clears the text first and calls `close` last; only `close` is called; the candidates are untouched |
| TokenSearch.ReseedShowsActiveList | src/components/TokenSearchDialog/index.tsx:35-39 | The re-seed replaces the candidates with the active list, keeps the text and calls nothing |
| DialogSession.KeystrokeIsConsistent | src/components/TokenSearchDialog/index.tsx:41-56 | From any state, a keystroke leaves candidates that the dispatch gives for the shown text |
| DialogSession.DismissResetIsConsistent | src/components/TokenSearchDialog/index.tsx:63-66 | Corrected dismissal: empty text, the active list as candidates, only `close` called, consistent from any state |
| DialogSession.ReseedForTextIsConsistent | src/components/TokenSearchDialog/index.tsx:35-39 | Corrected re-seed: keeps the text, calls nothing, leaves the candidates consistent with the new inputs, and equals the component's re-seed when the text is empty |
| DialogSession.MountIsConsistent | src/components/TokenSearchDialog/index.tsx:30-39 | After mounting and the first re-seed the field is empty and the candidates are the active list |
| DialogSession.StepKeepsConsistent | src/components/TokenSearchDialog/index.tsx:35-66 | Each event handled with the corrected handlers keeps the candidates consistent with the text |
| DialogSession.RunKeepsConsistent | src/components/TokenSearchDialog/index.tsx:35-66 | Every sequence of such events from a consistent dialog ends consistent |
| DialogSession.SessionAlwaysConsistent | src/components/TokenSearchDialog/index.tsx:30-66 | Every run from mounting is consistent |
| Scenarios.EtherBySymbol | src/components/TokenSearchDialog/index.tsx:117-123 | On the list [Ether], "eth" finds Ether by its symbol "ETH"; with the other network selected it finds nothing |
| Scenarios.EtherNotByOtherText | src/components/TokenSearchDialog/index.tsx:117-123 | On the list [Ether], "xyz" finds nothing |
| Scenarios.EtherByAddress | src/components/TokenSearchDialog/index.tsx:112-114 | Ether's exact address finds Ether, whatever the resolver would say |
| Scenarios.EtherCapitalAddressMissesList | src/components/TokenSearchDialog/index.tsx:113 | The same address in capital letters misses the list; with a failing resolver no candidate is shown |
| Scenarios.DismissLeavesStaleCandidates | src/components/TokenSearchDialog/index.tsx:63-66 | The component's dismissal turns a consistent state into an inconsistent one: the text is empty but the candidates are not the active list |
| Scenarios.ReseedIgnoresText | src/components/TokenSearchDialog/index.tsx:35-39 | The component's re-seed turns a consistent state into an inconsistent one: it shows the whole list under a text that filters it out |

## Left out

- Rendering: the JSX, CSS classes, icons, the "No result found" notice and the logo fallback are presentation only.
- React hooks and timing: `useState`, `useEffect` and `useCallback`, and the 100 ms delay before the re-seed. The re-seed is modelled by its effect (`Reseed`), not by when it runs.
- The resolver's internals (`ethWalletManager.getERC20Info`): that service is not part of this model. Its answer is the input `ResolverOutcome`.
- Overlapping lookups: each keystroke's lookup is modelled as settling before the next event. The stale-answer race between concurrent lookups is concurrency, not designed behaviour.
- The list hooks `useEthTokenList` and `useGravityBridgeTokenList` are not part of this model. Their lists are parameters, so the props `ethChainId` and `gravityBridgeAccount` that feed them do not appear. The props `open` and `className` only affect rendering.
- Text.Lower: maps only the ASCII capitals `A`–`Z`. The full Unicode case mapping of `_.toLower` is not modelled, because it needs Unicode tables. So filter results for text with non-ASCII letters are not covered.
- Token records carry only the four fields the dialog reads. The token-lists record also has `chainId`, `decimals` and optional `tags`/`extensions`, which nothing here reads. Tokens are compared by value (`==`, `in`), while `_.find`, `_.filter` and `select` pass object references. No outcome changes, because the dialog never compares two tokens with each other.
- `_.get(event, 'target.value', '')` is modelled as an optional string, where a missing value gives `""`. Non-string values are not modelled.

## Findings

| source | as written | input that shows it | evidently intended | confidence | as-written member | corrected member |
|---|---|---|---|---|---|---|
| src/components/TokenSearchDialog/index.tsx:63-66 | Dismissal clears the search text but keeps the candidates | List [token named "A", symbol "B"]; type "z" (no candidates); dismiss. The field is empty but the list shows no result. | Search text and candidates both reset on close, so a reopened dialog shows the whole list under an empty field | medium, not executed | Scenarios.DismissLeavesStaleCandidates | DialogSession.DismissResetIsConsistent |
| src/components/TokenSearchDialog/index.tsx:35-39 | The re-seed after a list or network change sets the whole list whatever the search text | Type "z" while the list is still empty; the list [token named "A", symbol "B"] then arrives. The field shows "z" above a token it does not match. | Candidates recomputed for the text on screen | low, not executed | Scenarios.ReseedIgnoresText | DialogSession.ReseedForTextIsConsistent |

`DialogSession.Step` uses the corrected dismissal and re-seed, and
`DialogSession.RunKeepsConsistent` proves the candidates then always match
the text.
