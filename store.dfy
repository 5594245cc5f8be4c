/**
 * The in-memory stand-in for the remote graph store, and the MessageCreate
 * handler as a method that drives it through the same sequence of inserts and
 * selects as the bot does.
 */
module GraphStore {
  import opened Wrappers
  import opened Links
  import opened Classifier
  import opened Threading
  import Decimal

  /** One inbound edge of a combined insert: its type and its source; its target is the inserted node. */
  datatype InEdge = InEdge(typeId: nat, from: nat)

  /** The links a combined insert creates for its inbound edges, numbered right after node `id`. */
  function InboundLinks(id: nat, ins: seq<InEdge>): (r: seq<Link>)
    ensures |r| == |ins|
    ensures forall k :: 0 <= k < |ins| ==> r[k] == Link(id + 1 + k, ins[k].typeId, ins[k].from, id, None)
  {
    if ins == [] then []
    else
      var last := ins[|ins| - 1];
      InboundLinks(id, ins[..|ins| - 1]) + [Link(id + |ins|, last.typeId, last.from, id, None)]
  }

  class Store {
    /** The link table; the store only ever appends to it. */
    var links: seq<Link>

    /**
     * The handler's invariant on the table: `OnMessageCreate` requires and
     * keeps it. `Insert` and `InsertWithInbound` do not promise it on their
     * own, since an arbitrary link need not respect it.
     */
    ghost predicate Valid()
      reads this
    {
      WellFormed(links)
    }

    constructor ()
      ensures links == [] && Valid()
    {
      links := [];
    }

    /** Inserts one link and returns the fresh id the store gave it. */
    method Insert(typeId: nat, from: nat, to: nat, value: Option<string>) returns (id: nat)
      modifies this
      ensures id == |old(links)| + 1
      ensures links == old(links) + [Link(id, typeId, from, to, value)]
    {
      id := |links| + 1;
      links := links + [Link(id, typeId, from, to, value)];
    }

    /** Inserts a node together with inbound edges pointing at it, as one operation; returns the node's id. */
    method InsertWithInbound(typeId: nat, value: Option<string>, ins: seq<InEdge>) returns (id: nat)
      modifies this
      ensures id == |old(links)| + 1
      ensures links == old(links) + [Link(id, typeId, 0, 0, value)] + InboundLinks(id, ins)
    {
      id := |links| + 1;
      links := links + [Link(id, typeId, 0, 0, value)] + InboundLinks(id, ins);
    }

    /**
     * Selects the Conversation links whose value is exactly `name` and returns
     * the id of the first row, or 0 when there is no row.
     */
    method SelectConversation(name: string) returns (id: nat)
      ensures id > 0 ==> ConversationNamed(links, id, name)
      ensures id > 0 ==> forall x :: 0 < x < id ==> !ConversationNamed(links, x, name)
      ensures id == 0 ==> forall x :: !ConversationNamed(links, x, name)
    {
      var i := 0;
      while i < |links|
        invariant 0 <= i <= |links|
        invariant forall x :: 0 < x <= i ==> !ConversationNamed(links, x, name)
      {
        if links[i].typeId == ConversationType && links[i].value == Some(name) {
          return i + 1;
        }
        i := i + 1;
      }
      return 0;
    }

    /**
     * Selects the Messages of `root`'s messaging tree ordered by depth,
     * deepest first, and returns the id of the first row, or 0 when there is
     * no row.  Among equally deep Messages the earliest one comes first.
     */
    method SelectDeepest(root: nat) returns (id: nat)
      requires Valid()
      ensures id > 0 ==> InTree(links, id, root)
      ensures id > 0 ==> forall x :: InTree(links, x, root) ==> Thread(links, x).depth <= Thread(links, id).depth
      ensures id == 0 ==> forall x :: !InTree(links, x, root)
    {
      var ls := links;
      id := 0;
      var best := 0;
      var i := 0;
      while i < |ls|
        invariant 0 <= i <= |ls|
        invariant id == 0 ==> forall x :: 1 <= x <= i ==> !InTree(ls, x, root)
        invariant id > 0 ==> id <= i && InTree(ls, id, root) && best == Thread(ls, id).depth
        invariant id > 0 ==> forall x :: 1 <= x <= i && InTree(ls, x, root) ==> Thread(ls, x).depth <= best
      {
        var x := i + 1;
        if IsMessage(ls, x) && ReplyIndex(ls, x).Some? {
          var p := Thread(ls, x);
          if p.root == root && (id == 0 || p.depth > best) {
            id, best := x, p.depth;
          }
        }
        assert forall y :: 1 <= y <= i + 1 && InTree(ls, y, root) ==> y == x || y <= i;
        i := i + 1;
      }
    }

    /**
     * The MessageCreate handler.  An admitted event stores its Message and the
     * Message's MessageId loop, looks up the channel's Conversation, and then
     * either replies to the deepest Message under it (or to it, when it holds
     * none) or opens it with its Contain and Reply in one insert.
     */
    method OnMessageCreate(ev: MessageEvent, botId: nat, userLinkId: nat)
      requires Valid()
      modifies this
      ensures Valid()
      ensures Step(old(links), links, ev, botId, userLinkId)
      ensures !IsEligible(ev, botId) ==> links == old(links)
    {
      ghost var ls := links;
      if IsEligible(ev, botId) {
        var channelName := Decimal.NatToString(ev.channelId);
        var messageContent := AssembleContent(ev);
        var messageLinkId := Insert(MessageType, 0, 0, Some(messageContent));
        var messageIdLinkId := Insert(MessageIdType, messageLinkId, messageLinkId, Some(Decimal.NatToString(ev.id)));
        assert links == Ingest(ls, ev);
        IngestFresh(ls, ev);
        var conversationLinkId := SelectConversation(channelName);
        if conversationLinkId > 0 {
          var deepest := SelectDeepest(conversationLinkId);
          var lastMessageId := if deepest > 0 then deepest else conversationLinkId;
          assert AttachPoint(Ingest(ls, ev), conversationLinkId, lastMessageId);
          var replyLinkId := Insert(ReplyType, messageLinkId, lastMessageId, None);
          StepOfAttach(ls, links, ev, botId, userLinkId, conversationLinkId, lastMessageId);
        } else {
          var conversationId := InsertWithInbound(ConversationType, Some(channelName),
            [InEdge(ContainType, userLinkId), InEdge(ReplyType, messageLinkId)]);
          assert links == Ingest(ls, ev) + ConversationLinks(conversationId, channelName, userLinkId, messageLinkId);
          StepOfOpen(ls, links, ev, botId, userLinkId);
        }
        StepWellFormed(ls, links, ev, botId, userLinkId);
      }
    }
  }
}
