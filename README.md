# Welcome-message formatter, modelled in Dafny

This project models the message formatter of the koishi plugin
`better-custom-welcome-message`, as implemented in `src/index.ts`. When a
member joins or leaves a group, the plugin does four things:

- it picks one of the configured templates (`selectMessage`);
- it substitutes the placeholders `{user}`, `{group}`, `{time}`, `{avatar}`,
  `{id}`, `{group_id}`, `{group_count}` and `{hitokoto}` with eight chained
  global `.replace` calls;
- it converts the markdown to a tree of message elements;
- it rewrites every text element so that each `{at}` marker becomes a
  mention (`at` element) of the member (`formatMessage`,
  `transformElements`, `transformElement`).

Modules:

- `Nullable` (nullable.dfy): `Option` for JavaScript's `null`/`undefined`.
- `Strings` (strings.dfy): string primitives.
  - `indexOf`;
  - `split`/`join` as a specification;
  - a global literal replace, which scans left to right and does not rescan
    its output;
  - `Number.prototype.toString` on counts.
- `Replacement` (replacement.dfy): what global replacement does.
  - Every occurrence is replaced.
  - A token cut by `split` is cut uniquely.
  - Replacing one `{name}` token leaves another token where it was.
  - A replacement can re-form the token it removed.
- `Placeholders` (placeholders.dfy): the values read from the session, and
  the replace chain.
  - The `??` chains.
  - `getNotEmptyText`, both as a function and as the loop the source runs.
  - The avatar URL and its markdown fragment.
  - The member count.
  - The chain `Render` itself.
- `Elements` (elements.dfy): the element tree and the mention pass.
  - The pass is specified by functions (`MentionNodes`, `Rewrite`,
    `RewriteAll`).
  - It is implemented as the source's imperative code: a `NodeList` class
    stands for the JavaScript arrays that are pushed into. `TransformElement`
    runs the `while (true)` loop, and `TransformElements` runs the recursive
    `for` loop into a fresh child list.
  - Each method is proved to push exactly what the functions describe.
- `Welcome` (welcome.dfy): `selectMessage` and `formatMessage`. The latter
  includes the loop over the top-level elements.

Inputs that come from outside the program are parameters:

- the session fields (`Session`);
- the bot's guild name and member list, the formatted time and the fetched
  quote (`Fetched`);
- the markdown converter (`transform`);
- the resolved selector;
- the value of `Math.random()`.

## Model

| member | source | states |
|---|---|---|
| Strings.IndexOf | src/index.ts:166 | `text.indexOf("{at}")`: -1 or an index where the marker occurs |
| Strings.IndexOfFirst | src/index.ts:166 | the index found is the first occurrence; -1 means there is none |
| Strings.DecimalString | src/index.ts:142 | `toString()` of a count is a non-empty string of decimal digits, with no leading zero unless it is "0" |
| Strings.DecimalRoundTrip | src/index.ts:142 | reading the decimal string back gives the count |
| Strings.ReplaceAll | src/index.ts:129-143 | one `.replace(/{name}/g, v)`: a left-to-right scan that replaces each leftmost, non-overlapping occurrence and does not rescan what it inserted; replacing a pattern by itself gives the text back |
| Replacement.ReplaceAllReplacesEveryOccurrence | src/index.ts:129-143 | each `.replace(/{name}/g, v)` equals cutting the text at every occurrence of the token and gluing the pieces with `v` (the pieces hold no token) |
| Replacement.ReplaceAllAbsent | src/index.ts:129-143 | text without the token is left unchanged |
| Replacement.ReplaceAllAroundToken | src/index.ts:129-143 | replacing token `t` maps `a + m + b`, for a different token `m`, to the replaced `a`, then `m`, then the replaced `b` |
| Replacement.ReplacementCanLeaveToken | src/index.ts:129-143 | the output is not rescanned: `t[..k] + t + t[k..]` with `t` replaced by "" is `t` itself, e.g. `{gr{group}oup}` gives `{group}` |
| Replacement.SplitOfJoin | src/index.ts:160-178 | marker-free pieces joined at `{at}` are cut back into exactly those pieces |
| Placeholders.FirstNonEmpty | src/index.ts:228-235 | the result is "" exactly when every argument is null or empty; otherwise it is the first argument that is present and non-empty |
| Placeholders.GetNotEmptyText | src/index.ts:228-235 | the loop returns the same value as FirstNonEmpty |
| Placeholders.GuildId | src/index.ts:104 | `session.event.guild?.id ?? session.guildId`: present when either is; the event's id wins |
| Placeholders.UserId | src/index.ts:105 | `session.author?.id ?? session.event.user?.id ?? session.userId`: present when any is; the first present one in that order |
| Placeholders.GroupName | src/index.ts:106-109 | the bot's guild name when it has one, else the event's guild name, else "" |
| Placeholders.MemberCount | src/index.ts:117-121 | the length of a plain member array, or of a page's `data` |
| Placeholders.Interpolated | src/index.ts:126 | `${session.userId?.toString()}`: the id, or "undefined" when there is none |
| Placeholders.Avatar | src/index.ts:123-127 | on `onebot`/`red` with a user id, the QQ avatar URL whose `dst_uin` is `session.userId` (or "undefined") with `&spec=640`; otherwise the author's avatar |
| Placeholders.AvatarFragment | src/index.ts:139 | `![avatar](${avatar ?? ""})`: starts with `![avatar](` and is as long as the prefix, the avatar (or "") and `)` together; that the middle is the avatar is `AvatarFragmentUrl` |
| Placeholders.AvatarFragmentUrl | src/index.ts:139 | the fragment reads back, under `FragmentUrl` (strip `![avatar](` and the final `)`), to the avatar or ""; to "" exactly when no avatar is known |
| Placeholders.ValuesOf | src/index.ts:104-143 | the eight values the chain substitutes: the first non-empty name, the group name, the time, an avatar fragment that reads back to the avatar, the coalesced ids or "", a decimal string that reads back to the member count, and the quote |
| Placeholders.GroupCountValue | src/index.ts:117-142 | `{group_count}` is all digits, has no leading zero unless it is "0", and denotes the array's length (or the page's `data` length) |
| Placeholders.ReplaceEach | src/index.ts:129-143 | a chain of global replaces, each on the previous one's output, in the given order; the empty text stays empty |
| Placeholders.Render | src/index.ts:129-143 | the eight-step chain with the placeholders in source order (`{user}` first, `{hitokoto}` last); the empty template stays empty |
| Placeholders.ReplaceEachAroundToken | src/index.ts:129-143 | a chain of replacements of other tokens leaves a token `m` in place between the rendered text on either side |
| Placeholders.RenderAroundMarker | src/index.ts:129-143 | `{at}` survives the chain: `Render(a + "{at}" + b)` is `Render(a) + "{at}" + Render(b)` |
| Placeholders.RenderJoin | src/index.ts:129-143 | rendering text joined at markers renders each piece on its own and keeps every marker |
| Placeholders.RenderKeepsMarkers | src/index.ts:129-143 | the rendered template is the template's `{at}`-separated pieces, each rendered, rejoined at the same markers |
| Placeholders.RenderWithoutTokens | src/index.ts:129-143 | a template without any of the eight placeholders is unchanged |
| Placeholders.ReplacementOrder | src/index.ts:129-143 | the chain is sequential in source order: a user name `{group}` gets expanded, while a group name `{user}` does not |
| Elements.Mention | src/index.ts:176 | `h.at(session.userId)`: an `at` element without children whose `id` attribute is the member's id; it has no attributes when the session has no id |
| Elements.MentionNodes | src/index.ts:156-181 | what the loop pushes for one text: an odd number of nodes, starting and ending with a text; that texts and mentions alternate is `MentionNodesShape` |
| Elements.MentionNodesInterleave | src/index.ts:156-181 | a text element becomes its `{at}`-split pieces as text nodes, with a mention between each two |
| Elements.MentionNodesShape | src/index.ts:160-180 | k markers give 2k+1 nodes; text nodes at even positions hold the pieces and contain no marker; mentions of the member are at odd positions; empty pieces are kept |
| Elements.RestoreMentionNodes | src/index.ts:165-180 | reading the nodes back, with each mention as `{at}`, gives the element's content |
| Elements.MentionNodesIdentity | src/index.ts:160-180 | a text element comes out as itself exactly when it holds no marker |
| Elements.MentionNodesOfJoin | src/index.ts:160-180 | marker-free pieces joined at markers come out as exactly those pieces, interleaved with mentions |
| Elements.MentionNodesMarkerFree | src/index.ts:160-180 | no text node produced from a text element holds a marker |
| Elements.LoneMarker | src/index.ts:172-180 | `"{at}"` gives an empty text, a mention and an empty text: empty pieces are not dropped |
| Elements.TwoMarkers | src/index.ts:160-180 | marker-free texts `a`, `b`, `c` around two markers, as in `"a{at}b{at}c"`, give `a`, mention, `b`, mention, `c` |
| Elements.RewriteAllAppend | src/index.ts:193-195 | rewriting a list is rewriting its parts in order and concatenating |
| Elements.Rewrite | src/index.ts:183-198 | the nodes one element becomes: at least one; a non-text element gives exactly one, with the same type, attributes and source, and at least as many children |
| Elements.RewriteAll | src/index.ts:149-151 | the nodes a list becomes, element by element in order; never fewer than the list had |
| Elements.RewriteIdentity | src/index.ts:183-198 | for a well-formed tree, an element is rebuilt identically exactly when no text inside it holds a marker |
| Elements.RewriteAllIdentity | src/index.ts:183-198 | for a well-formed list, a list is rebuilt identically exactly when none of its elements holds a marker |
| Elements.RewriteMarkerFree | src/index.ts:156-198 | after the pass over a well-formed element, no text anywhere in the output holds a marker, and the output is well-formed |
| Elements.RewriteAllMarkerFree | src/index.ts:156-198 | after the pass over a well-formed list, no text anywhere in the output holds a marker, and the output is well-formed |
| Elements.RewriteAllIdempotent | src/index.ts:156-198 | on a well-formed list, running the pass a second time changes nothing |
| Elements.NodeList.constructor | src/index.ts:190 | a new array is empty |
| Elements.NodeList.Push | src/index.ts:175-176 | `push` appends one element and changes nothing else |
| Elements.TransformElement | src/index.ts:156-181 | the loop pushes exactly MentionNodes of the content onto `parent` after what was there; a non-text element pushes nothing |
| Elements.TransformElements | src/index.ts:183-198 | pushes exactly the nodes Rewrite gives for the element onto `parent`, after what was there |
| Welcome.RandomIndex | src/index.ts:222 | `Math.floor(Math.random() * n)` is a valid index |
| Welcome.RandomIndexInterval | src/index.ts:222 | index `i` is drawn exactly when the random value lies in `[i/n, (i+1)/n)`, an interval of the same width for every template |
| Welcome.SelectMessage | src/index.ts:200-226 | no template exactly when none is configured; `1 <= k <= N` gives template k-1; any other nonzero k gives the first; 0 gives the randomly drawn one |
| Welcome.SelectedIsConfigured | src/index.ts:200-226 | a chosen template is always one of the configured ones |
| Welcome.FormatMessage | src/index.ts:97-153 | the final list is RewriteAll of the converted rendered template, with mentions of `session.userId`; when the converter's tree is well-formed, no text in the result holds `{at}` and the result is well-formed |

## Behaviour worth knowing

These are consequences of the code that a reader might not expect.

- **Replacement order matters.** Each `.replace` works on the previous
  one's output, so a value that spells a later placeholder is expanded
  (`Placeholders.ReplacementOrder`). The eight placeholders are distinct
  tokens, but the substituted values may contain any of them.
- **A replaced placeholder can reappear.** A global replace does not rescan
  its output, so `{gr{group}oup}` with an empty group name leaves `{group}`
  (`Replacement.ReplacementCanLeaveToken`).
- **The quote is always fetched.** `hitokoto(ctx)` is awaited for every
  template (line 143), including one without `{hitokoto}`, so a failed
  fetch fails every message. The quote is therefore an input of the model,
  always present.
- **Empty texts are kept.** `"{at} welcome Bob"` gives an empty text, a
  mention and `" welcome Bob"` (`Elements.LoneMarker` shows the same for a
  lone marker).
- **"undefined" can appear in the avatar URL.** The URL interpolates
  `session.userId?.toString()`. When the author or event user id is present
  but `session.userId` is not, the URL holds "undefined"
  (`Placeholders.Interpolated`).
- **Mentions are `at` elements.** A mention is an `at` element whose `id`
  attribute is `session.userId` (`Elements.Mention`).

## Left out

- `apply`, `Config`, `usage` and the event wiring: the model has no event
  handlers or message sending.
  - The handlers' `!message` check means an empty chosen template sends
    nothing; this is not modelled.
- `hitokoto`: the HTTP request and its three tries are I/O. The quote
  enters as `Fetched.quote`.
- `bot.getGuild`, `bot.getGuildMemberList` and `new Date().toLocaleString()`
  are calls outside the program. Their results are fields of `Fetched`.
- The markdown converter `transform` is an outside library. It is a
  function parameter of `Welcome.FormatMessage`.
- `session.resolve(selector)` is an outside call. Its result is the `index`
  argument of `Welcome.SelectMessage`.
- Welcome.SelectMessage: the resolved selector is an integer; other
  results of `session.resolve` are not modelled.
  - A numeric string such as `"2"` is converted by `index - 1` and selects
    the same template as the number would. `"0"` is not `=== 0`, so it
    takes the `index - 1` branch and falls back to the first template.
  - A fractional value, or one that converts to NaN, falls back to the
    first template.
- Welcome.SelectMessage: a configured template that is `null` is not
  modelled. On the `index - 1` branch the code replaces it by the first
  template. On the random branch it is returned as drawn, and the
  handler's `!message` check then sends nothing.
- Welcome.RandomIndex: `Math.random()` is a real number in [0, 1), and
  `random * n` is exact. Floating-point rounding is not modelled.
- Strings.ReplaceAll: the special replacement patterns of
  `String.prototype.replace` (`$&`, `$$`, `` $` ``, `$'`) are not
  interpreted. A value containing them is inserted literally, whereas the
  code would expand them.
- Exceptions are not modelled: a missing `session.author` or
  `session.event.user` makes the code throw a `TypeError`.
- Strings are sequences of Unicode scalar values (Dafny's `char`), not of
  UTF-16 code units as in JavaScript. Lone surrogates cannot be
  represented, and lengths and indices differ from JavaScript's for
  characters outside the Basic Multilingual Plane. Every pattern the model
  searches for (`{at}` and the eight placeholders) is ASCII, so the cut
  points and the pieces are the same. Locale formatting of the time is not
  modelled.
- Elements.WellFormed: a text element is always written `Text(content)`;
  the datatype could also spell it `Element("text", attrs, …)`. The methods
  and `Rewrite` route only `Text` into the split, so the tree lemmas
  (`RewriteIdentity`, `RewriteAllIdentity`, `RewriteMarkerFree`,
  `RewriteAllMarkerFree`, `RewriteAllIdempotent`) require a well-formed tree,
  and `Welcome.FormatMessage` promises a marker-free result only when the
  converter's output is well-formed. A text element without a `content`
  attribute, on which the code would throw, is not modelled. `Text` holds
  only the content: the code rebuilds every text piece with `h.text(...)`,
  which drops a text element's `source` and any attribute other than
  `content`, while a non-text element keeps its `source`. So "rebuilt
  identically" in `RewriteIdentity` is identity of the model's values.
- Placeholders.FragmentUrl reads the fragment back by stripping
  `![avatar](` and the final `)`. How a markdown parser reads an image URL
  that holds `)` or a space is not modelled.
- Object identity and sharing are not modelled:
  - elements are values;
  - in the code the rebuilt element gets its own attribute object with the
    original's entries (a shallow copy); the model has an equal value;
  - `h.jsx` is taken to keep the attributes as given.
