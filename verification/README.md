# Pollo — a Dafny model of the client-side logic

Pollo is a real-time polling web application: signed-in users create polls
with options and settings, share them, and others vote and watch the results.
Persistence, real-time subscriptions and sign-in belong to a hosted document
database and a hosted identity provider. What the application itself
decides is a handful of pure computations, and this project models them:

- **Poll creation** (`PollDraft`, `draft.dfy`). The draft editor lets you add
  an empty option row, remove a row (never going below two rows), edit a row,
  set the title and description, and flip the three settings switches. The
  submission guard blocks a blank title (after trimming) or any blank option
  row. The same predicate disables the submit button. A successful
  submission writes one poll record (open, zero votes, the creator name with
  JavaScript `||` fallbacks) and one zero-count option record per row.
- **Explore search** (`Explore`, `explore.dfy`). The fetched polls are
  filtered by a case-insensitive substring match on the title or on the
  optional description. The page then shows loading skeletons, the "no polls
  found" message, or the cards.
- **Share dialog** (`Share`, `share.dfy`). It builds the share URL, the
  iframe embed snippet and the Twitter, LinkedIn, Facebook and WhatsApp
  links. It also decides whether a popup is opened.
- **Join by poll ID** (`Join`, `join.dfy`). Submitting suppresses the
  browser's default submission. It navigates only when the input has a
  non-whitespace character, and the target is built from the untrimmed
  input.

Three supporting modules hold the JavaScript builtins the code relies on and the shared types, and a fourth reads query strings back:

- `Text` (`text.dfy`) models `trim`, `toLowerCase` and `includes`.
- `Uri` (`uri.dfy`) models `encodeURIComponent`: UTF-8 bytes escaped as
  `%XY` with upper-case hex digits. Its partner is a decoder modelled on
  `decodeURIComponent`, with a proved round trip.
- `Query` (`query.dfy`) reads a URL's query string back. It is only used to
  state what a receiving site gets out of each share link; the application
  never parses URLs.
- `Wrappers` (`wrappers.dfy`) holds `Option`, which stands for
  `undefined`/`null`.

Effects become values:

- a navigation is an `Option<string>` target;
- a popup is an `Effect`;
- a database write is the record that would be written.

The browser window's origin and the signed-in user are parameters.

Two facts about the code shape the model:

- The poll document and the option batch are two separate writes: the poll
  is added first and the option batch is committed afterwards
  (app/create/page.tsx:74-85). The model produces both records from one
  call; the gap between the two writes is listed below.
- The creation form has no switch for `allowChangeVote`
  (app/create/page.tsx:174-208), so every poll created through the form has
  it off (`PollDraft.ReachableDraftsKeepInvariant`).

## Model

| member | source | states |
|---|---|---|
| Text.Trim | app/create/page.tsx:58 | `trim` returns the middle of the string: what it cuts on either side is whitespace, a non-empty result neither starts nor ends with whitespace, and the result is empty exactly when the input is all whitespace |
| Text.BlankIffAllWhitespace | components/JoinPoll.tsx:14 | a string's trimmed form is falsy (empty) exactly when every character is JavaScript whitespace |
| Text.Lower | app/explore/page.tsx:55-56 | lower-casing keeps the length, maps each character on its own, and leaves no upper-case ASCII letter |
| Text.LowerIdempotent | app/explore/page.tsx:55-56 | lower-casing twice is the same as lower-casing once |
| Text.Contains | app/explore/page.tsx:55-56 | `includes` is true whenever the needle is a prefix of the haystack, and only when the needle is no longer than the haystack |
| Text.ContainsIffOccurs | app/explore/page.tsx:55-56 | `includes` answers true exactly when the needle occurs at some position of the haystack |
| Uri.HexRoundTrip | components/ShareModal.tsx:32-33 | the value of an upper-case escape digit is the digit's value |
| Uri.HexDigit | components/ShareModal.tsx:32-33 | escape digits are themselves unreserved characters |
| Uri.Utf8 | components/ShareModal.tsx:32-33 | a character encodes to 1-4 UTF-8 bytes, one byte exactly for ASCII, continuation bytes of the form 10xxxxxx |
| Uri.Encode | components/ShareModal.tsx:32-33 | `encodeURIComponent` output contains only unreserved characters and `%`, is at least as long as its input, and equals its input exactly when no character needs escaping |
| Uri.EncodeAvoids | components/ShareModal.tsx:38 | an encoded value never contains a query delimiter such as `?`, `&` or `=` |
| Uri.EncodeAppend | components/ShareModal.tsx:47 | encoding distributes over concatenation |
| Uri.EncodeSpace | components/ShareModal.tsx:47 | a space is encoded as `%20` |
| Uri.DecodeEscapedUtf8 | components/ShareModal.tsx:32-33 | the escaped UTF-8 bytes of any character decode back to that character |
| Uri.DecodeEncodeChar | components/ShareModal.tsx:32-33 | decoding the encoding of one character followed by anything yields that character, then the decoding of the rest |
| Uri.DecodeEncode | components/ShareModal.tsx:32-33 | `decodeURIComponent(encodeURIComponent(s)) == s` for every string |
| Uri.EncodeInjective | components/ShareModal.tsx:32-33 | two strings with the same encoding are equal |
| PollDraft.Initial | app/create/page.tsx:24-32 | the form opens with two empty options, an empty title and description, and default settings (multiple choice off, login off, voter list shown, vote change off); it satisfies the invariant and cannot be submitted |
| PollDraft.AddOption | app/create/page.tsx:40-42 | adding appends exactly one empty row at the end; earlier rows and all other fields are unchanged; the invariant is kept |
| PollDraft.DropIndex | app/create/page.tsx:46 | the index filter drops one element when the index is in range and none otherwise |
| PollDraft.DropIndexKeepsOnlyInput | app/create/page.tsx:46 | the index filter only drops elements: every element of the result, counted with multiplicity, comes from the input |
| PollDraft.DropIndexSlices | app/create/page.tsx:46 | the index filter deletes exactly the element at an in-range index and keeps the rest in order; an out-of-range index removes nothing |
| PollDraft.RemoveOption | app/create/page.tsx:44-49 | with two rows or fewer removal is a no-op; above two, an in-range row is deleted and the rest keep their order, and an out-of-range index changes nothing; only the rows can change; at least two rows remain |
| PollDraft.ChangeOption | app/create/page.tsx:51-55 | editing row i sets that row to the new value; the row count, every other row and every other field stay the same |
| PollDraft.ApplyKeepsInvariant | app/create/page.tsx:40-55 | every form action (title, description, add, remove, edit, the three switches) keeps at least two rows and vote changes off |
| PollDraft.PlayKeepsInvariant | app/create/page.tsx:24-208 | any sequence of offered form actions keeps the invariant |
| PollDraft.ReachableDraftsKeepInvariant | app/create/page.tsx:24-208 | every draft reachable from the opening form has at least two option rows and `allowChangeVote` off |
| PollDraft.CreatorName | app/create/page.tsx:66 | the creator name is the full name if truthy, else the username if truthy, else "Anonymous"; it is never empty |
| PollDraft.OptionRecords | app/create/page.tsx:77-84 | one option record per row, listed in the order of the batch's writes, with the row's text and count 0; the counts sum to 0 |
| PollDraft.Create | app/create/page.tsx:57-84 | nothing is written exactly when the guard blocks (blank title or blank row); otherwise the poll is open with zero votes and carries the draft's title, description and settings, the creator name chosen by `CreatorName`, the user's id and avatar (both absent without a user), the option records match the rows one to one, and the option counts sum to the poll's vote total |
| PollDraft.Blocked | app/create/page.tsx:58 | creation is stopped exactly when the title, or some option row, consists only of whitespace |
| PollDraft.SubmitDisabled | app/create/page.tsx:222 | the button is disabled exactly while a submission is in flight or when the title or some row consists only of whitespace |
| PollDraft.ButtonMatchesGuard | app/create/page.tsx:58-222 | when no submission is in flight, the submit button is disabled exactly when submitting would write nothing |
| PollDraft.WhitespaceRowBlocks | app/create/page.tsx:58 | any row made only of whitespace blocks creation, for any user and whatever the rest of the draft holds |
| Explore.Matches | app/explore/page.tsx:55-56 | a poll matches exactly when the lower-cased term occurs at some position of the lower-cased title, or of the lower-cased description when there is one |
| Explore.Filter | app/explore/page.tsx:54-57 | the result is no longer than the input and every kept poll matches the term |
| Explore.Kept | app/explore/page.tsx:54-57 | the positions of the matching polls, strictly increasing, and a position is listed exactly when its poll matches |
| Explore.FilterPicksKept | app/explore/page.tsx:54-57 | the filtered list is exactly the polls at the matching positions, in their original order (a subsequence) |
| Explore.FilterMembership | app/explore/page.tsx:54-57 | a poll is in the result exactly when it was fetched and its lower-cased title, or its description if present, contains the lower-cased term |
| Explore.NoDescriptionMatchesTitle | app/explore/page.tsx:56 | a poll without a description matches exactly when the term occurs in its title |
| Explore.EmptyTermMatches | app/explore/page.tsx:54-57 | every poll matches the empty term |
| Explore.EmptyTermKeepsAll | app/explore/page.tsx:54-57 | an empty search term keeps every fetched poll, in order |
| Explore.LowerTermSameResult | app/explore/page.tsx:55-56 | searching for a term and for its lower-cased form gives the same list |
| Explore.KeepAllMatching | app/explore/page.tsx:54-57 | a list whose every poll matches is returned unchanged |
| Explore.FilterIdempotent | app/explore/page.tsx:54-57 | filtering the filtered list again with the same term changes nothing |
| Explore.Render | app/explore/page.tsx:78-90 | skeletons exactly while loading; the "no polls found" message exactly when loading is done and the filtered list is empty; otherwise the cards are the filtered list |
| Explore.EmptyTermMessageOnlyWhenNothingFetched | app/explore/page.tsx:84-87 | with an empty search box, the message shows only when nothing was fetched |
| Share.ShareUrl | components/ShareModal.tsx:21-22 | the share URL is the window's origin, `/poll/` and the poll id, or just the path when there is no window |
| Share.ShareUrlInjective | components/ShareModal.tsx:22 | different poll ids give different share URLs |
| Share.EmbedCode | components/ShareModal.tsx:23 | the snippet is `<iframe src="`, then the address `origin/embed/pollId`, then `" width="100%" height="500" frameborder="0"></iframe>` |
| Share.EmbedCodeSource | components/ShareModal.tsx:23 | the snippet's first quoted attribute value is the embed page `origin/embed/pollId`, followed by fixed attributes that do not depend on the poll (when the origin and id contain no double quote) |
| Share.SocialLink | components/ShareModal.tsx:31-49 | the link is empty exactly for a platform name other than twitter, linkedin, facebook and whatsapp |
| Share.SocialLinkPages | components/ShareModal.tsx:38-47 | the part of each link before its query is the platform's page: `https://twitter.com/intent/tweet`, `https://www.linkedin.com/sharing/share-offsite/`, `https://www.facebook.com/sharer/sharer.php` and `https://wa.me/` |
| Share.ShareSocial | components/ShareModal.tsx:31-51 | a popup (`_blank`, 600 by 400) with the platform's link opens exactly for the four known platforms; nothing happens for any other |
| Share.TwitterCarriesTextAndUrl | components/ShareModal.tsx:32-38 | read back, the Twitter link's `text` is "Vote on this poll: " plus the title and its `url` is the share URL |
| Share.LinkedInCarriesUrl | components/ShareModal.tsx:41 | read back, the LinkedIn link's `url` is the share URL |
| Share.FacebookCarriesUrl | components/ShareModal.tsx:44 | read back, the Facebook link's `u` is the share URL |
| Share.WhatsAppCarriesMessageAndUrl | components/ShareModal.tsx:47 | read back, the WhatsApp link's `text` is the message, a space, and the share URL |
| Share.UrlOnlyLinksIgnoreTitle | components/ShareModal.tsx:40-45 | the LinkedIn and Facebook links do not depend on the poll title |
| Share.SocialLinkDistinguishesPolls | components/ShareModal.tsx:31-49 | on every known platform, links for different polls differ |
| Join.HandleJoin | components/JoinPoll.tsx:12-17 | the default submission is always suppressed; navigation happens, once, exactly when the input has a non-whitespace character; the target is `/poll/` followed by the raw input |
| Join.TargetIsUntrimmed | components/JoinPoll.tsx:14-15 | an ID typed with a leading space passes the guard and is navigated to with the space kept, which is not the trimmed target |

## Left out

- The vote/tally transaction, the voting eligibility rules and the live percentage display are not part of this model. The poll, results and embed pages that hold them are outside the modelled core.
- The dashboard's open/close toggle and delete, and the user-profile sync, are not modelled. They are single database writes with no local logic.
- The demo poll is not modelled. It is driven by a timer, random numbers and floating-point rounding.
- Page layout, animations, the live preview, the preview-mode toggle, date formatting and the static pages are not modelled. They are presentation only.
- Database I/O is not modelled. This covers `addDoc`, `writeBatch`, `serverTimestamp` (the `createdAt` field), `getDocs` with its `createdAt`-descending order and 50-poll limit, and fetch errors. The explore page's input is the fetched list. A failed fetch leaves that list empty, which `Explore.Render` covers.
- PollDraft.Create: the poll document and the option batch are two separate writes in the code. A failure between them would leave a poll with no option records. The model returns both records together and does not model that partial outcome.
- `router.push`, `window.open`, the clipboard copy and its two-second "copied" timer are not modelled as actions. For the join form and the social buttons the decision is modelled: the navigation target or the popup `Effect`.
- Two navigation decisions of the creation page are not modelled at all: the redirect to `/sign-in` when the identity provider reports no signed-in user (app/create/page.tsx:34-38), and the redirect to the new poll's page after a successful creation (app/create/page.tsx:87), whose target depends on the id the database assigns.
- PollDraft.OptionRecords: the stored option documents are unordered. Each gets an id generated by the database and no position field, and the pages that read them back impose no order, so the sequence order of the records only reflects the order of the batch's writes.
- PollDraft.SubmitDisabled: the in-flight flag `isLoading` is only a parameter. Setting and clearing it around the asynchronous write is not modelled.
- PollDraft.ChangeOption: it requires an in-range row index. The only caller passes the index of a rendered row. A JavaScript write past the end of the array (which would leave holes) is not modelled.
- Text.Lower: only ASCII letters are lower-cased. `toLowerCase` maps all of Unicode, so the search is modelled as case-insensitive for ASCII only.
- Uri.Encode: strings are sequences of Unicode scalar values, not UTF-16 code units. A lone surrogate cannot be represented, so `encodeURIComponent`'s `URIError` for one is not modelled; `Text.Trim`, `Text.Lower` and `Text.Contains` likewise work on scalar values rather than code units.
- Uri.Decode: the application never decodes. The decoder exists as the encoder's partner and as the reader of the share links.
