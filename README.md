# Discord thread listener: message-threading model

This project models the message-threading handler of the Discord listener for
the Deep graph store. The handler is the `MessageCreate` callback in
`index.ts`. For each chat message it decides whether to answer, stores the
message as a Message link with a MessageId loop, finds the Conversation link
named after the channel, and hangs the message under it with a Reply link. If
the Conversation has Messages, the Reply goes to the deepest one. If it has
none, the Reply goes to the Conversation. If there is no Conversation yet, the
handler opens one, together with a Contain link from the user and the
Message's Reply, in one combined insert.

The remote store is replaced by an in-memory, append-only table of links
(`id, type, from, to, value`). Ids are fresh and positive and follow insertion
order. The type ids that the bot looks up by name are fixed, distinct
constants. The store's `messagingTree` index is replaced by `Links.Thread`.
It follows a Message's Reply chain to the Conversation at its end. A Message
that replies to the Conversation has depth 1. One that replies to a Message of
depth d has depth d + 1.

Modules:

- `Decimal` (decimal.dfy): gateway ids (message, channel and bot user ids) are
  decimal strings. The model keeps them as numbers and renders them to text.
- `Classifier` (classifier.dfy): the channel kinds, the event record, the
  substring test, the mention token, the eligibility guard and content
  assembly. These are pure.
- `Links` (links.dfy): the link table and its well-formedness invariant. Also
  the first Reply out of a Message, the Reply-chain placement (`Thread`) and the
  facts that appending links keeps every threaded Message where it was.
- `Threading` (threading.dfy): `Step`, the relation between the table before
  and after one handled event, and the lemmas about it. These include the
  invariant the handler keeps, exactly one Reply per admitted event, the
  Conversation it opens, the depth-maximal choice, and the single linear
  thread formed by messages handled one after another in one channel.
- `GraphStore` (store.dfy): the `Store` class. Its fields hold the link table.
  It has `Insert`, a combined insert with inbound edges, the two selects the
  handler issues, and the handler itself, `OnMessageCreate`. The handler makes
  the same calls in the same order as the source. It is proved to perform a
  `Step` and to keep the table well formed.

Inputs that the source fetches are fields of the event record. These are the
fetched channel's type and the text of the quoted message. The bot's own user
id (`botId`) and the user link id (`userLinkId`, `index.ts:32`) are parameters
of the handler.

Two behaviours of the code are worth stating plainly:

- The stored Message value is the message text verbatim, mention token
  included (`index.ts:94`, `index.ts:109`).
- `/init` does not tear down an earlier session (`index.ts:202-207`), so the
  model claims no session exclusivity.

## Model

| member | source | states |
|---|---|---|
| `Decimal.NatToString` | index.ts:126 | the text of a gateway id is a non-empty digit string with no leading zero, "0" only for 0 |
| `Decimal.ParseRender` | index.ts:126 | the MessageId value records the gateway message id without loss: reading the text back gives the id |
| `Decimal.RenderInjective` | index.ts:95 | two channel ids give the same Conversation value exactly when they are the same id, so an exact string match finds only its own channel |
| `Classifier.ContainsIff` | index.ts:94 | the `includes` test holds exactly when the token occurs at some position of the text |
| `Classifier.MentionToken` | index.ts:85 | the token the bot answers to; `Classifier.MentionTokenShape` states its form and `Classifier.EligibleIff` its use: an event is admitted only when the token occurs in its text |
| `Classifier.MentionTokenShape` | index.ts:85 | the token is `<@`, then digits that read back as the bot's id, then `>` |
| `Classifier.IsEligible` | index.ts:85-94 | the guard of the handler; `Classifier.EligibleIff` states which events it admits, in both directions |
| `Classifier.AssembleContent` | index.ts:97-111 | the text stored for a Message; `Classifier.QuoteLayout` states its layout with and without a quote, and `Classifier.QuotingKeepsToken` that quoting drops nothing |
| `Classifier.EligibleIff` | index.ts:85-94 | an event is admitted iff `<@botId>` occurs in its text, its author is not a bot, and its channel is a public or private thread (announcement threads and all other kinds are refused) |
| `Classifier.QuoteLayout` | index.ts:99-111 | without a quote, the stored text is the message text verbatim; with a quote, it is the quoted text, then the exact separator (line break, ten spaces, `---`, line break, ten spaces), then the message text, neither part changed |
| `Classifier.QuotingKeepsToken` | index.ts:105-107 | quoting never drops a token from the stored text: whatever the message text contains, the assembled text contains |
| `Links.Thread` | index.ts:137-144 | every threaded Message's Reply chain ends at a Conversation after at least one step, which is its depth in that Conversation's messaging tree |
| `Links.ThreadExtend` | index.ts:119-187 | appending links never changes a threaded Message's Reply, Conversation or depth |
| `Links.TreeFrame` | index.ts:168-187 | appending links whose only Replies leave one Message changes no messaging tree except by adding that Message |
| `Threading.Step` | index.ts:94-187 | the table before and after one handled event; `Threading.StepAppends` and `Threading.StepPlacement` state what it appends and where the new Message lands, `Threading.StepWellFormed` that it keeps the invariant |
| `Threading.StepWellFormed` | index.ts:119-187 | handling an event keeps the table well formed: ids follow positions, every `to` names an earlier link, and every Reply leaves a Message, is its only Reply, and points at a Conversation or at an already threaded Message |
| `Threading.StepShape` | index.ts:113-187 | after an admitted event the table is well formed, starts with the two inserts, ends with a Reply leaving the new Message that is its first and only Reply, and holds no other new Reply |
| `Threading.StepAppends` | index.ts:113-187 | an admitted event only appends; its first two links are the Message with the assembled text and the MessageId loop from and to that Message with the id's text; exactly one appended link is a Reply, and it leaves the new Message |
| `Threading.StepTreeFrame` | index.ts:119-187 | apart from the new Message, every Message keeps its tree, its depth and its Reply target |
| `Threading.StepPlacement` | index.ts:136-187 | the new Message lands under a Conversation named after its channel, strictly deeper than every other Message of that Conversation |
| `Threading.AttachAppendsOneReply` | index.ts:129-172 | when the channel's Conversation exists, exactly one link is appended after the two inserts: a Reply from the new Message to a deepest Message of that Conversation, or to the Conversation when it holds none |
| `Threading.OpenInbound` | index.ts:173-187 | when no Conversation is named after the channel, one is opened with the channel id as its value; the only links in the table pointing at it are the Contain from the user and the Reply from the new Message |
| `Threading.StepConversations` | index.ts:129-187 | a Conversation is opened only by an admitted event whose channel has none, and then exactly one, named after the channel; otherwise the set of Conversations is unchanged |
| `Threading.StepKeepsConversationsUnique` | index.ts:129-187 | under one-at-a-time handling, at most one Conversation per channel stays at most one |
| `Threading.ChainStart` | index.ts:173-187 | the first admitted message of a channel with no Conversation opens it and starts its thread at depth 1 |
| `Threading.ChainDeepest` | index.ts:137-166 | on a linear thread, the only Message as deep as the last one is the last one |
| `Threading.ChainAttach` | index.ts:136-172 | on a linear thread, the next message of the channel replies to the thread's last Message, one level deeper |
| `Threading.ChainStep` | index.ts:136-172 | each further admitted message of the channel extends the thread by itself |
| `Threading.ChainFrame` | index.ts:94-172 | an event that is rejected, or comes from another channel, leaves a channel's thread as it was: its Conversation, its Messages, their depths and Reply targets |
| `Threading.NoConversationFrame` | index.ts:129-187 | such an event opens no Conversation for the channel |
| `Threading.ThreadStep` | index.ts:94-187 | one handled event, seen from one channel: an admitted event of the channel opens its thread or extends it by its Message; any other event leaves it as it was |
| `Threading.AdmittedIff` | index.ts:85-95 | a channel's admitted events are exactly the events the guard admits whose channel is that one, listed in the order they arrived |
| `Threading.AdmittedNext` | index.ts:94 | one more event adds its Message to a channel's admitted Messages exactly when the guard admits it and it comes from that channel |
| `Threading.RunChain` | index.ts:94-187 | along any run, after n events a channel has no Conversation while none of its events was admitted, and otherwise its thread is the chain of the Messages of its admitted events, whatever else was handled in between |
| `Threading.LinearThread` | index.ts:94-187 | along any run, the admitted messages of one channel form a single linear thread: one Conversation, opened by the first of them; the j-th replies to the (j-1)-th (the first to the Conversation) at depth j; and no other Message is in the thread |
| `GraphStore.InboundLinks` | index.ts:177-186 | the inbound edges of a combined insert are numbered right after the node, keep their types and sources, and point at the node |
| `GraphStore.Store.Insert` | index.ts:119 | an insert appends one link with the next free id and returns that id |
| `GraphStore.Store.InsertWithInbound` | index.ts:174-187 | a combined insert appends the node and then its inbound edges, and returns the node's id |
| `GraphStore.Store.SelectConversation` | index.ts:129-134 | the lookup returns a Conversation whose value is exactly the channel name (the earliest such), or 0 exactly when there is none |
| `GraphStore.Store.SelectDeepest` | index.ts:137-166 | the tree query returns a Message of greatest depth under the Conversation, or 0 exactly when the tree holds no Message |
| `GraphStore.Store.OnMessageCreate` | index.ts:84-190 | the handler performs one `Step` on the table and keeps it well formed; a rejected event leaves the table unchanged |

## Left out

- The HTTP surface (`/healthz`, `/init`, the server and its header size) is left out. It is I/O plumbing.
- `makeDeepClient` is left out. JWT parsing and client construction are foreign library calls.
- `loadBotToken`, the bot token lookup, Discord client construction and login are left out. They are network and credential plumbing.
- The `ready`, `unhandledRejection`, `exit` and `disconnected` handlers are left out. They are event-loop and process-level error plumbing.
- Logging is left out.
- `channels.fetch` and `fetchReference` are not modelled as calls. Their results are fields of the event record.
- Name resolution through `deep.id` is replaced by constant type ids. This includes the MessageId type looked up inside the handler.
- The `author` sub-selection and the other returned columns of the tree query are left out. The handler reads only the row's link id.
- A store or gateway call that fails part-way is not modelled. Every call succeeds. So the orphaned Message that a failure after the first insert would leave is not modelled.
- Concurrent handlers and the duplicate-Conversation race they allow are left out. Only one-at-a-time handling is modelled. This is why uniqueness of a Conversation per channel is proved only for sequential handling.
- `Threading.RunChain`, `Threading.LinearThread`: stated for runs that start from a table with no Conversation for the channel. A Conversation left by an earlier session (the store outlives the process) is not covered.
- Tie-breaks: `Step` allows any Conversation named after the channel and any Message of greatest depth, as the source does. `SelectConversation` and `SelectDeepest` pick the one with the lowest id, because the source does not fix the store's row order.
