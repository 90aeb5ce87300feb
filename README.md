# Feathers chat demo: message store and HTML escaping

This project models two pieces of a small Feathers real-time chat demo and proves
their properties in Dafny.

- **`MessageService`** (`app.ts`), the server's in-memory message store
  (module `Messages`, file `messages.dfy`). It is a class with one mutable
  field, `messages`. `Find` returns that sequence. `Create` builds a message
  whose `id` is the number of messages already stored and whose `text` is the
  payload's text, then appends it. The store's invariant is that every
  message's `id` equals its position. So identifiers are unique, dense and
  strictly increasing, and a store keeps the invariant exactly when some run
  of `create` calls on a fresh service produced it. `Startup` is the server's
  startup step: a fresh service and one `create` of
  "Hello world from the server". The server itself never calls `find` there;
  the model's `Startup` calls it only to observe the resulting store.
  `CreateInOrder` runs `create` on a fresh service once per text and proves
  that the store is then the reference store `Built(texts)`.
- **`escape`** (`public/client.js`), the browser client's HTML-escaping helper
  (module `HtmlEscape`, file `html_escape.dfy`). `Escape` is written the way
  the source runs it: three global replacements in order (`&`, then `<`, then
  `>`). `ReplaceAll` models JavaScript's global `replace` with a literal
  pattern. The meaning of the helper is a per-character map, `Expand(s, EscapeChar)`,
  and the two are proved equal. The other lemmas are derived from that:
  - no `<` or `>` is left in the output;
  - every `&` in the output starts `&amp;`, `&lt;` or `&gt;`;
  - the output length is exact;
  - escaping distributes over concatenation;
  - a string is returned unchanged exactly when it has none of the three characters;
  - `Unescape` inverts `Escape`.

  `Unescape` is not part of the source. It is the partner used to state the round trip.

The asynchronous `Promise` results of `find` and `create` are modelled as
synchronous returns.

## Model

| member | source | states |
|---|---|---|
| `Messages.MessageService.constructor` | app.ts:14-15 | a new service holds no messages, and so meets the id-equals-position invariant |
| `Messages.MessageService.Find` | app.ts:17-20 | returns exactly the stored sequence and changes nothing; in a valid store, each returned message's id is its position |
| `Messages.MessageService.Create` | app.ts:22-34 | the returned message has id = store size before the call and the payload's text (other payload fields are dropped); the store becomes the old store plus that message, so earlier messages keep their values and positions; the invariant is preserved |
| `Messages.BuiltAt` | app.ts:24-31 | after creating texts t0..tn-1 in order on a fresh service, message i is `{id: i, text: ti}` |
| `Messages.IdsArePositionsIffBuilt` | app.ts:23-31 | a store has every id equal to its position if and only if it is the store that creating its texts in order on a fresh service yields |
| `Messages.IdsIncreasing` | app.ts:23-26 | in a valid store, ids strictly increase with position, so they are unique |
| `Messages.CreateInOrder` | app.ts:22-34 | calling `create` on a fresh service with texts t0..tn-1 in turn leaves exactly the reference store `Built(texts)`: message i is `{id: i, text: ti}` |
| `Messages.Startup` | app.ts:86-88 | on a fresh service the startup create returns `{id: 0, text: "Hello world from the server"}`, and find then returns only that message |
| `HtmlEscape.ReplaceAllExpand` | public/client.js:87-89 | a global replacement applied to a string built by a per-character map gives the string built by another per-character map, when each piece is either the pattern or cannot start a match |
| `HtmlEscape.EscapeStepAmp` | public/client.js:87 | replacing every `&` by `&amp;` maps each `&` to `&amp;` and keeps every other character |
| `HtmlEscape.EscapeStepLt` | public/client.js:88 | after that, replacing every `<` by `&lt;` leaves the `&amp;` entities alone and maps each `<` to `&lt;` |
| `HtmlEscape.EscapeStepGt` | public/client.js:89 | after that, replacing every `>` by `&gt;` gives exactly the per-character escape map |
| `HtmlEscape.EscapeIsCharMap` | public/client.js:87-89 | the three chained replacements equal the per-character map `&`→`&amp;`, `<`→`&lt;`, `>`→`&gt;`, every other character (quotes included) unchanged and in order |
| `HtmlEscape.EscapeLessThan` | public/client.js:87-89 | `escape("<")` is `&lt;`, not `&amp;lt;`, because `&` is replaced first; an existing entity `&lt;` is escaped again to `&amp;lt;` |
| `HtmlEscape.EscapeConcat` | public/client.js:87-89 | `escape(a + b) == escape(a) + escape(b)` |
| `HtmlEscape.EscapeNoAngleBrackets` | public/client.js:87-89 | the output contains no `<` and no `>` |
| `HtmlEscape.EscapeAmpersandsStartEntities` | public/client.js:87-89 | every `&` in the output starts `&amp;`, `&lt;` or `&gt;` |
| `HtmlEscape.EscapeLength` | public/client.js:87-89 | output length = input length + 4·count(`&`) + 3·count(`<`) + 3·count(`>`) |
| `HtmlEscape.EscapeUnchangedIffPlain` | public/client.js:87-89 | the output equals the input if and only if the input contains none of `&`, `<`, `>` |
| `HtmlEscape.UnescapeEscape` | public/client.js:87-89 | replacing `&lt;`, then `&gt;`, then `&amp;` in the output recovers the input exactly |

## Left out

- Server setup in `app.ts` (JSON and URL-encoded body parsing, static files, REST and Socket.io transports, the error handler, `listen`): transport and I/O plumbing.
- The `connection` handler that joins every connection to the `everybody` channel, and `app.publish`: thin calls into the Feathers library, whose channel and fan-out semantics are not in this repository's files.
- Everything in `public/client.js` except `escape`: DOM rendering, login and logout, event listeners, socket subscriptions, and `moment` date formatting (a foreign library).
- `src/models/messages.model.ts`: it only builds a NeDB datastore from a configured path (storage library and filesystem I/O).
- The user and message hooks the tests exercise (password hashing, gravatar URL, password stripping, user population): that code lives in `src/app` and its hooks, which are not part of this model.
- Promise and async semantics of `find` and `create`: they add nothing beyond the synchronous state change. JavaScript event-loop interleaving is not modelled.
- Messages.MessageService.Create: the array length limit is not modelled. JavaScript arrays hold at most 2^32-1 elements; past that, `push` (app.ts:31) throws a RangeError and `create` rejects. The model's store is unbounded.
- Messages.MessageService.Find: aliasing is not modelled. The source returns the live `messages` array (app.ts:19), so a caller holding an earlier `find` result sees later creates. The model returns a sequence value, a snapshot taken at the call.
- Messages.MessageService.Create: aliasing is not modelled. The source pushes a message object and returns that same object (app.ts:31-33). A caller that mutates the returned message, or an array returned by `find`, can break the id-equals-position invariant. No caller in this repository does. The model's values cannot be mutated this way, so once the invariant holds no caller can break it.
- Messages.MessageData: the payload's `text` is assumed to be a string, as the declared type says. Types are erased at run time, and a payload without `text` would be stored with `text: undefined` (app.ts:27). That path is not modelled.
- HtmlEscape.Escape: called with a non-string (for example an `undefined` message text), `str.replace` throws a TypeError (public/client.js:87). The model takes only strings, so that error is not modelled.
- Messages.MessageService.Create: the payload's extra fields are modelled as a string-to-string map. Only their presence matters, because `create` copies nothing but `text`.
- HtmlEscape.ReplaceAll: it models `String.prototype.replace` with a global regular expression that holds a single literal pattern and a replacement without `$` patterns. Regular-expression syntax in general is not modelled.
- Strings are sequences of Dafny `char`. UTF-16 surrogate pairs are not treated specially, which does not matter here because the three patterns are ASCII characters.
