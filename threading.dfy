/**
 * What one handled MessageCreate event does to the link table, stated as a
 * relation between the table before and after, and what follows from it.
 */
module Threading {
  import opened Wrappers
  import opened Links
  import opened Classifier
  import Decimal

  /** The Conversation value for a channel: its id as text. */
  function ChannelName(ev: MessageEvent): string {
    Decimal.NatToString(ev.channelId)
  }

  /** The Message link holding the stored text. */
  function MessageLink(id: nat, ev: MessageEvent): Link {
    Link(id, MessageType, 0, 0, Some(AssembleContent(ev)))
  }

  /** The MessageId link: a loop on Message `m` carrying the gateway message id as text. */
  function MessageIdLink(id: nat, m: nat, ev: MessageEvent): Link {
    Link(id, MessageIdType, m, m, Some(Decimal.NatToString(ev.id)))
  }

  function ReplyLink(id: nat, m: nat, t: nat): Link {
    Link(id, ReplyType, m, t, None)
  }

  /**
   * The one combined insert that opens a Conversation: the Conversation node,
   * then its inbound Contain from the user and its inbound Reply from Message `m`.
   */
  function ConversationLinks(id: nat, name: string, user: nat, m: nat): seq<Link> {
    [Link(id, ConversationType, 0, 0, Some(name)), Link(id + 1, ContainType, user, id, None), ReplyLink(id + 2, m, id)]
  }

  /** The table after the Message and MessageId inserts of an admitted event. */
  function Ingest(ls: seq<Link>, ev: MessageEvent): seq<Link> {
    ls + [MessageLink(|ls| + 1, ev), MessageIdLink(|ls| + 2, |ls| + 1, ev)]
  }

  /**
   * `t` is where a new Message under Conversation `c` may attach: a Message of
   * greatest depth in `c`'s tree (any one of them on a tie), or `c` itself when
   * its tree holds no Message.
   */
  ghost predicate AttachPoint(ls: seq<Link>, c: nat, t: nat) {
    (InTree(ls, t, c) && forall x :: InTree(ls, x, c) ==> Thread(ls, x).depth <= Thread(ls, t).depth)
    || (t == c && forall x :: !InTree(ls, x, c))
  }

  /**
   * One MessageCreate event handled to completion, `ls` before and `ls'` after.
   * A rejected event writes nothing.  An admitted one appends its Message and
   * MessageId links, looks up a Conversation named after the channel, and then
   * either appends one Reply to an attach point of that Conversation or, when
   * there is none, opens the Conversation with its Contain and Reply.
   */
  ghost predicate Step(ls: seq<Link>, ls': seq<Link>, ev: MessageEvent, botId: nat, userLinkId: nat) {
    if !IsEligible(ev, botId) then ls' == ls
    else
      var m := |ls| + 1;
      var ls2 := Ingest(ls, ev);
      var name := ChannelName(ev);
      if exists c :: ConversationNamed(ls2, c, name) then
        exists c, t :: ConversationNamed(ls2, c, name) && AttachPoint(ls2, c, t) && ls' == ls2 + [ReplyLink(|ls2| + 1, m, t)]
      else
        ls' == ls2 + ConversationLinks(|ls2| + 1, name, userLinkId, m)
  }

  /** The attach branch of `Step`, one way round. */
  lemma StepOfAttach(ls: seq<Link>, ls': seq<Link>, ev: MessageEvent, botId: nat, userLinkId: nat, c: nat, t: nat)
    requires IsEligible(ev, botId)
    requires ConversationNamed(Ingest(ls, ev), c, ChannelName(ev)) && AttachPoint(Ingest(ls, ev), c, t)
    requires ls' == Ingest(ls, ev) + [ReplyLink(|ls| + 3, |ls| + 1, t)]
    ensures Step(ls, ls', ev, botId, userLinkId)
  {
  }

  /** The opening branch of `Step`, one way round. */
  lemma StepOfOpen(ls: seq<Link>, ls': seq<Link>, ev: MessageEvent, botId: nat, userLinkId: nat)
    requires IsEligible(ev, botId)
    requires forall c :: !ConversationNamed(Ingest(ls, ev), c, ChannelName(ev))
    requires ls' == Ingest(ls, ev) + ConversationLinks(|ls| + 3, ChannelName(ev), userLinkId, |ls| + 1)
    ensures Step(ls, ls', ev, botId, userLinkId)
  {
  }

  /** No Reply leaves an id the table has not handed out yet. */
  lemma {:induction false} FreshHasNoReply(ls: seq<Link>, x: nat)
    requires WellFormed(ls) && x > |ls|
    ensures ReplyIndex(ls, x).None?
  {
    forall j | 0 <= j < |ls|
      ensures !IsReplyFrom(ls[j], x)
    {
      if ls[j].typeId == ReplyType {
        assert ReplyOk(ls, j);
      }
    }
  }

  /** The Message and MessageId inserts keep the table well formed and leave every messaging tree as it was. */
  lemma {:induction false} IngestFrame(ls: seq<Link>, ev: MessageEvent)
    requires WellFormed(ls)
    ensures WellFormed(Ingest(ls, ev))
    ensures forall x :: ReplyIndex(Ingest(ls, ev), x) == ReplyIndex(ls, x)
    ensures forall x, c :: InTree(Ingest(ls, ev), x, c) <==> InTree(ls, x, c)
    ensures forall x, c :: InTree(ls, x, c) ==> Thread(Ingest(ls, ev), x) == Thread(ls, x)
  {
    var tail := [MessageLink(|ls| + 1, ev), MessageIdLink(|ls| + 2, |ls| + 1, ev)];
    var ls2 := ls + tail;
    assert ls2 == Ingest(ls, ev);
    WellFormedExtend(ls, tail);
    forall x
      ensures ReplyIndex(ls2, x) == ReplyIndex(ls, x)
    {
      ReplyIndexExtend(ls, tail, x);
    }
    forall x, c | InTree(ls, x, c)
      ensures InTree(ls2, x, c) && Thread(ls2, x) == Thread(ls, x)
    {
      ThreadExtend(ls, tail, x);
    }
    forall x, c | InTree(ls2, x, c)
      ensures InTree(ls, x, c)
    {
      var j := ReplyIndex(ls, x).value;
      assert ReplyOk(ls, j);
      ThreadExtend(ls, tail, x);
    }
  }

  /** The Message and MessageId inserts name no Conversation. */
  lemma {:induction false} IngestNames(ls: seq<Link>, ev: MessageEvent)
    ensures forall x, name :: ConversationNamed(Ingest(ls, ev), x, name) <==> ConversationNamed(ls, x, name)
  {
    var ls2 := Ingest(ls, ev);
    forall x: nat, name: string
      ensures ConversationNamed(ls2, x, name) <==> ConversationNamed(ls, x, name)
    {
      if 1 <= x <= |ls| {
        assert ls2[x - 1] == ls[x - 1];
      }
    }
  }

  /** Appending a Reply from an unanswered Message `m` to a Conversation or to a threaded Message keeps the table well formed. */
  lemma {:induction false} ReplyWellFormed(ls: seq<Link>, m: nat, t: nat)
    requires WellFormed(ls) && IsMessage(ls, m) && ReplyIndex(ls, m).None?
    requires IsConversation(ls, t) || (IsMessage(ls, t) && ReplyIndex(ls, t).Some?)
    ensures WellFormed(ls + [ReplyLink(|ls| + 1, m, t)])
  {
    var r := ReplyLink(|ls| + 1, m, t);
    ReplyIndexAppendReply(ls, r, m);
    if ReplyIndex(ls, t).Some? {
      ReplyIndexExtend(ls, [r], t);
    }
    assert ReplyOk(ls + [r], |ls|);
    WellFormedExtend(ls, [r]);
  }

  /** Appending a Reply from the fresh Message `m` to an attach point keeps the table well formed. */
  lemma {:induction false} AttachWellFormed(ls2: seq<Link>, m: nat, c: nat, t: nat)
    requires WellFormed(ls2) && IsMessage(ls2, m) && ReplyIndex(ls2, m).None? && AttachPoint(ls2, c, t)
    requires IsConversation(ls2, c)
    ensures WellFormed(ls2 + [ReplyLink(|ls2| + 1, m, t)])
  {
    ReplyWellFormed(ls2, m, t);
  }

  /** In the combined insert, the Reply is the first one out of the fresh Message `m`. */
  lemma {:induction false} OpenReplyIndex(ls2: seq<Link>, m: nat, name: string, user: nat)
    requires ReplyIndex(ls2, m).None?
    ensures ReplyIndex(ls2 + ConversationLinks(|ls2| + 1, name, user, m), m) == Some(|ls2| + 2)
  {
    var tail := ConversationLinks(|ls2| + 1, name, user, m);
    assert ls2 + tail == (ls2 + tail[..2]) + [tail[2]];
    ReplyIndexExtend(ls2, tail[..2], m);
    ReplyIndexAppendReply(ls2 + tail[..2], tail[2], m);
  }

  /** Opening a Conversation with its Contain and its Reply from the fresh Message `m` keeps the table well formed. */
  lemma {:induction false} OpenWellFormed(ls2: seq<Link>, m: nat, name: string, user: nat)
    requires WellFormed(ls2) && IsMessage(ls2, m) && ReplyIndex(ls2, m).None?
    ensures WellFormed(ls2 + ConversationLinks(|ls2| + 1, name, user, m))
  {
    var n := |ls2|;
    var tail := ConversationLinks(n + 1, name, user, m);
    var head := tail[..2];
    var ls3 := ls2 + head;
    assert forall k :: 0 <= k < |head| ==> head[k].id == n + k + 1 && head[k].to <= n + k && head[k].typeId != ReplyType;
    WellFormedExtend(ls2, head);
    ReplyIndexExtend(ls2, head, m);
    assert IsMessage(ls3, m) && IsConversation(ls3, n + 1);
    ReplyWellFormed(ls3, m, n + 1);
    assert ls2 + tail == ls3 + [ReplyLink(|ls3| + 1, m, n + 1)];
  }

  /** Right after its two inserts, the new Message is in the table and has no Reply yet. */
  lemma {:induction false} IngestFresh(ls: seq<Link>, ev: MessageEvent)
    requires WellFormed(ls)
    ensures WellFormed(Ingest(ls, ev))
    ensures IsMessage(Ingest(ls, ev), |ls| + 1) && ReplyIndex(Ingest(ls, ev), |ls| + 1).None?
  {
    var tail := [MessageLink(|ls| + 1, ev), MessageIdLink(|ls| + 2, |ls| + 1, ev)];
    assert ls + tail == Ingest(ls, ev);
    forall k | 0 <= k < |tail|
      ensures tail[k].id == |ls| + k + 1 && tail[k].to <= |ls| + k
      ensures tail[k].typeId != ReplyType
    {
    }
    WellFormedExtend(ls, tail);
    FreshHasNoReply(ls, |ls| + 1);
    ReplyIndexExtend(ls, tail, |ls| + 1);
  }

  /** A handled event keeps the table well formed: every Reply leaves a Message, is its only Reply, and points at a Conversation or an already threaded Message. */
  lemma StepWellFormed(ls: seq<Link>, ls': seq<Link>, ev: MessageEvent, botId: nat, userLinkId: nat)
    requires WellFormed(ls) && Step(ls, ls', ev, botId, userLinkId)
    ensures WellFormed(ls')
  {
    if IsEligible(ev, botId) {
      var m := |ls| + 1;
      var ls2 := Ingest(ls, ev);
      var name := ChannelName(ev);
      IngestFresh(ls, ev);
      IngestNames(ls, ev);
      if exists c :: ConversationNamed(ls2, c, name) {
        var c, t :| ConversationNamed(ls2, c, name) && AttachPoint(ls2, c, t) && ls' == ls2 + [ReplyLink(|ls2| + 1, m, t)];
        AttachWellFormed(ls2, m, c, t);
      } else {
        OpenWellFormed(ls2, m, name, userLinkId);
      }
    }
  }

  /**
   * The shape of an admitted event's writes: the Message and MessageId links,
   * then links whose only Reply is the last one, which leaves the new Message.
   */
  lemma {:induction false} StepShape(ls: seq<Link>, ls': seq<Link>, ev: MessageEvent, botId: nat, userLinkId: nat)
    requires WellFormed(ls) && IsEligible(ev, botId) && Step(ls, ls', ev, botId, userLinkId)
    ensures WellFormed(ls')
    ensures |ls'| >= |Ingest(ls, ev)| + 1 && ls'[..|Ingest(ls, ev)|] == Ingest(ls, ev)
    ensures ls'[|ls'| - 1] == ReplyLink(|ls'|, |ls| + 1, ls'[|ls'| - 1].to)
    ensures forall k :: |ls| <= k < |ls'| - 1 ==> ls'[k].typeId != ReplyType
    ensures ReplyIndex(ls', |ls| + 1) == Some(|ls'| - 1)
  {
    var ls2 := Ingest(ls, ev);
    var name := ChannelName(ev);
    if exists c :: ConversationNamed(ls2, c, name) {
      var c, t :| ConversationNamed(ls2, c, name) && AttachPoint(ls2, c, t) && ls' == ls2 + [ReplyLink(|ls2| + 1, |ls| + 1, t)];
      AttachShape(ls, ev, ls', c, t);
    } else {
      OpenShape(ls, ev, ls', userLinkId);
    }
  }

  /** The attach branch of `StepShape`. */
  lemma {:induction false} AttachShape(ls: seq<Link>, ev: MessageEvent, ls': seq<Link>, c: nat, t: nat)
    requires WellFormed(ls) && IsConversation(Ingest(ls, ev), c) && AttachPoint(Ingest(ls, ev), c, t)
    requires ls' == Ingest(ls, ev) + [ReplyLink(|ls| + 3, |ls| + 1, t)]
    ensures WellFormed(ls')
    ensures |ls'| >= |Ingest(ls, ev)| + 1 && ls'[..|Ingest(ls, ev)|] == Ingest(ls, ev)
    ensures ls'[|ls'| - 1] == ReplyLink(|ls'|, |ls| + 1, ls'[|ls'| - 1].to)
    ensures forall k :: |ls| <= k < |ls'| - 1 ==> ls'[k].typeId != ReplyType
    ensures ReplyIndex(ls', |ls| + 1) == Some(|ls'| - 1)
  {
    var ls2 := Ingest(ls, ev);
    IngestFresh(ls, ev);
    AttachWellFormed(ls2, |ls| + 1, c, t);
    ReplyIndexAppendReply(ls2, ReplyLink(|ls2| + 1, |ls| + 1, t), |ls| + 1);
    assert ls'[..|ls2|] == ls2;
    forall k | |ls| <= k < |ls'| - 1
      ensures ls'[k].typeId != ReplyType
    {
      assert ls'[k] == ls2[k];
    }
  }

  /** The opening branch of `StepShape`. */
  lemma {:induction false} OpenShape(ls: seq<Link>, ev: MessageEvent, ls': seq<Link>, user: nat)
    requires WellFormed(ls)
    requires ls' == Ingest(ls, ev) + ConversationLinks(|ls| + 3, ChannelName(ev), user, |ls| + 1)
    ensures WellFormed(ls')
    ensures |ls'| >= |Ingest(ls, ev)| + 1 && ls'[..|Ingest(ls, ev)|] == Ingest(ls, ev)
    ensures ls'[|ls'| - 1] == ReplyLink(|ls'|, |ls| + 1, ls'[|ls'| - 1].to)
    ensures forall k :: |ls| <= k < |ls'| - 1 ==> ls'[k].typeId != ReplyType
    ensures ReplyIndex(ls', |ls| + 1) == Some(|ls'| - 1)
  {
    var ls2 := Ingest(ls, ev);
    IngestFresh(ls, ev);
    OpenWellFormed(ls2, |ls| + 1, ChannelName(ev), user);
    OpenReplyIndex(ls2, |ls| + 1, ChannelName(ev), user);
    assert ls'[..|ls2|] == ls2;
    forall k | |ls| <= k < |ls'| - 1
      ensures ls'[k].typeId != ReplyType
    {
      if k < |ls2| {
        assert ls'[k] == ls2[k];
      } else {
        assert ls'[k] == ConversationLinks(|ls| + 3, ChannelName(ev), user, |ls| + 1)[k - |ls2|];
      }
    }
  }

  /**
   * An admitted event only appends: the old links are untouched, the first two
   * new ones are its Message (holding the assembled text) and its MessageId
   * loop (holding the gateway id as text), and exactly one of the new links is
   * a Reply, the one leaving the new Message.
   */
  lemma StepAppends(ls: seq<Link>, ls': seq<Link>, ev: MessageEvent, botId: nat, userLinkId: nat)
    requires WellFormed(ls) && IsEligible(ev, botId) && Step(ls, ls', ev, botId, userLinkId)
    ensures |ls'| > |ls| + 2 && ls'[..|ls|] == ls
    ensures ls'[|ls|] == Link(|ls| + 1, MessageType, 0, 0, Some(AssembleContent(ev)))
    ensures ls'[|ls| + 1] == Link(|ls| + 2, MessageIdType, |ls| + 1, |ls| + 1, Some(Decimal.NatToString(ev.id)))
    ensures ReplyCount(ls'[|ls|..]) == 1
    ensures IsReplyFrom(ls'[|ls'| - 1], |ls| + 1)
  {
    StepShape(ls, ls', ev, botId, userLinkId);
    var ls2 := Ingest(ls, ev);
    var tail := ls'[|ls|..|ls'| - 1];
    assert ls'[|ls|..] == tail + [ls'[|ls'| - 1]];
    assert forall k :: 0 <= k < |tail| ==> tail[k] == ls'[|ls| + k];
    NoReplyCount(tail);
    ReplyCountAppend(tail, [ls'[|ls'| - 1]]);
    assert [ls'[|ls'| - 1]][..0] == [];
  }

  lemma {:induction false} NoReplyCount(s: seq<Link>)
    requires forall k :: 0 <= k < |s| ==> s[k].typeId != ReplyType
    ensures ReplyCount(s) == 0
    decreases |s|
  {
    if s != [] {
      NoReplyCount(s[..|s| - 1]);
    }
  }

  /**
   * A handled event moves no threaded Message: apart from the new Message,
   * every Message is in the same tree as before, at the same depth, with the
   * same Reply target.
   */
  lemma {:induction false} StepTreeFrame(ls: seq<Link>, ls': seq<Link>, ev: MessageEvent, botId: nat, userLinkId: nat)
    requires WellFormed(ls) && Step(ls, ls', ev, botId, userLinkId)
    ensures WellFormed(ls')
    ensures forall x, c :: x != |ls| + 1 ==> (InTree(ls', x, c) <==> InTree(ls, x, c))
    ensures forall x, c :: InTree(ls, x, c) ==>
      InTree(ls', x, c) && Thread(ls', x) == Thread(ls, x) && ReplyTarget(ls', x) == ReplyTarget(ls, x)
  {
    if IsEligible(ev, botId) {
      StepShape(ls, ls', ev, botId, userLinkId);
      var tail := ls'[|ls|..];
      assert ls' == ls + tail;
      assert forall k :: 0 <= k < |tail| ==> tail[k] == ls'[|ls| + k];
      TreeFrame(ls, tail, |ls| + 1);
      forall x, c | InTree(ls, x, c)
        ensures ReplyTarget(ls', x) == ReplyTarget(ls, x)
      {
        assert ls'[ReplyIndex(ls, x).value] == ls[ReplyIndex(ls, x).value];
      }
    }
  }

  /** The Reply to an attach point of `c` gives the fresh Message `m` its place: one below the attach point, or depth 1 under `c`. */
  lemma {:induction false} AttachThread(ls2: seq<Link>, ls': seq<Link>, m: nat, c: nat, t: nat)
    requires WellFormed(ls2) && IsMessage(ls2, m) && ReplyIndex(ls2, m).None?
    requires IsConversation(ls2, c) && AttachPoint(ls2, c, t)
    requires ls' == ls2 + [ReplyLink(|ls2| + 1, m, t)]
    ensures WellFormed(ls') && ReplyIndex(ls', m) == Some(|ls2|)
    ensures InTree(ls2, t, c) ==> Thread(ls', m) == Placement(c, Thread(ls2, t).depth + 1)
    ensures !InTree(ls2, t, c) ==> Thread(ls', m) == Placement(c, 1)
  {
    AttachWellFormed(ls2, m, c, t);
    ReplyIndexAppendReply(ls2, ReplyLink(|ls2| + 1, m, t), m);
    if InTree(ls2, t, c) {
      ThreadExtend(ls2, [ReplyLink(|ls2| + 1, m, t)], t);
    }
  }

  /** Attaching the fresh Message `m` to an attach point of `c` puts it in `c`'s tree below every other Message there. */
  lemma {:induction false} AttachPlacement(ls2: seq<Link>, ls': seq<Link>, m: nat, name: string, c: nat, t: nat)
    requires WellFormed(ls2) && IsMessage(ls2, m) && ReplyIndex(ls2, m).None?
    requires ConversationNamed(ls2, c, name) && AttachPoint(ls2, c, t)
    requires ls' == ls2 + [ReplyLink(|ls2| + 1, m, t)]
    ensures WellFormed(ls') && ReplyIndex(ls', m).Some? && Thread(ls', m).root == c
    ensures InTree(ls', m, c) && ConversationNamed(ls', c, name)
    ensures forall x :: x != m && InTree(ls', x, c) ==> Thread(ls', x).depth < Thread(ls', m).depth
  {
    AttachThread(ls2, ls', m, c, t);
    TreeFrame(ls2, [ReplyLink(|ls2| + 1, m, t)], m);
    forall x | x != m && InTree(ls', x, c)
      ensures Thread(ls', x).depth < Thread(ls', m).depth
    {
      assert InTree(ls2, x, c);
    }
    assert ls'[c - 1] == ls2[c - 1];
  }

  /** Opening a Conversation for the fresh Message `m` puts `m` at depth 1 under it, alone. */
  lemma {:induction false} OpenPlacement(ls2: seq<Link>, ls': seq<Link>, m: nat, name: string, user: nat, c: nat)
    requires WellFormed(ls2) && IsMessage(ls2, m) && ReplyIndex(ls2, m).None?
    requires c == |ls2| + 1 && ls' == ls2 + ConversationLinks(c, name, user, m)
    ensures WellFormed(ls') && ReplyIndex(ls', m).Some? && Thread(ls', m) == Placement(c, 1)
    ensures InTree(ls', m, c) && ConversationNamed(ls', c, name)
    ensures forall x :: x != m ==> !InTree(ls', x, c)
  {
    var tail := ConversationLinks(|ls2| + 1, name, user, m);
    OpenWellFormed(ls2, m, name, user);
    OpenReplyIndex(ls2, m, name, user);
    assert forall k :: 0 <= k < |tail| && tail[k].typeId == ReplyType ==> k == 2;
    TreeFrame(ls2, tail, m);
  }

  /**
   * The depth-maximal choice at work: an admitted Message lands in the tree of
   * a Conversation named after its channel, below every other Message there.
   */
  lemma {:induction false} StepPlacement(ls: seq<Link>, ls': seq<Link>, ev: MessageEvent, botId: nat, userLinkId: nat)
    requires WellFormed(ls) && IsEligible(ev, botId) && Step(ls, ls', ev, botId, userLinkId)
    ensures WellFormed(ls') && ReplyIndex(ls', |ls| + 1).Some?
    ensures InTree(ls', |ls| + 1, Thread(ls', |ls| + 1).root)
    ensures ConversationNamed(ls', Thread(ls', |ls| + 1).root, ChannelName(ev))
    ensures forall x :: x != |ls| + 1 && InTree(ls', x, Thread(ls', |ls| + 1).root) ==>
      Thread(ls', x).depth < Thread(ls', |ls| + 1).depth
  {
    IngestFresh(ls, ev);
    var m := |ls| + 1;
    var ls2 := Ingest(ls, ev);
    var name := ChannelName(ev);
    if exists c :: ConversationNamed(ls2, c, name) {
      var c, t :| ConversationNamed(ls2, c, name) && AttachPoint(ls2, c, t) && ls' == ls2 + [ReplyLink(|ls2| + 1, m, t)];
      AttachPlacement(ls2, ls', m, name, c, t);
    } else {
      OpenPlacement(ls2, ls', m, name, userLinkId, |ls2| + 1);
    }
  }

  /**
   * Conversations are only ever opened by an admitted event whose channel has
   * none, and then exactly one, named after the channel; otherwise the set of
   * Conversations is unchanged.
   */
  lemma StepConversations(ls: seq<Link>, ls': seq<Link>, ev: MessageEvent, botId: nat, userLinkId: nat)
    requires WellFormed(ls) && Step(ls, ls', ev, botId, userLinkId)
    ensures IsEligible(ev, botId) && (forall c :: !ConversationNamed(ls, c, ChannelName(ev))) ==>
      forall x: nat, name: string :: ConversationNamed(ls', x, name) <==>
        ConversationNamed(ls, x, name) || (x == |ls| + 3 && name == ChannelName(ev))
    ensures !IsEligible(ev, botId) || (exists c :: ConversationNamed(ls, c, ChannelName(ev))) ==>
      forall x: nat, name: string :: ConversationNamed(ls', x, name) <==> ConversationNamed(ls, x, name)
  {
    if IsEligible(ev, botId) {
      StepShape(ls, ls', ev, botId, userLinkId);
      IngestNames(ls, ev);
      var ls2 := Ingest(ls, ev);
      forall x: nat, name: string | x <= |ls2|
        ensures ConversationNamed(ls', x, name) <==> ConversationNamed(ls2, x, name)
      {
        if 1 <= x {
          assert ls'[x - 1] == ls2[x - 1];
        }
      }
    }
  }

  /** A Conversation is never duplicated by sequential handling: one per name stays one per name. */
  ghost predicate UniqueConversations(ls: seq<Link>) {
    forall x, y, name :: ConversationNamed(ls, x, name) && ConversationNamed(ls, y, name) ==> x == y
  }

  lemma StepKeepsConversationsUnique(ls: seq<Link>, ls': seq<Link>, ev: MessageEvent, botId: nat, userLinkId: nat)
    requires WellFormed(ls) && UniqueConversations(ls) && Step(ls, ls', ev, botId, userLinkId)
    ensures UniqueConversations(ls')
  {
    StepConversations(ls, ls', ev, botId, userLinkId);
  }

  /**
   * When no Conversation is named after the channel, the event opens one with
   * value equal to the channel id, and the only links in the whole table that
   * point at it are the Contain from the user and the Reply from the new Message.
   */
  lemma OpenInbound(ls: seq<Link>, ls': seq<Link>, ev: MessageEvent, botId: nat, userLinkId: nat)
    requires WellFormed(ls) && IsEligible(ev, botId) && Step(ls, ls', ev, botId, userLinkId)
    requires forall c :: !ConversationNamed(ls, c, ChannelName(ev))
    ensures |ls'| == |ls| + 5 && ConversationNamed(ls', |ls| + 3, ChannelName(ev))
    ensures ls'[|ls| + 3] == Link(|ls| + 4, ContainType, userLinkId, |ls| + 3, None)
    ensures ls'[|ls| + 4] == Link(|ls| + 5, ReplyType, |ls| + 1, |ls| + 3, None)
    ensures forall k :: 0 <= k < |ls'| && ls'[k].to == |ls| + 3 ==> k == |ls| + 3 || k == |ls| + 4
  {
    IngestNames(ls, ev);
    forall k | 0 <= k < |ls|
      ensures ls'[k].to < |ls| + 3
    {
      assert ls'[k] == ls[k];
    }
  }

  /**
   * When the channel's Conversation `c` exists (and is the only one with that
   * name), the event opens none and appends a single Reply after its two
   * inserts, pointing at an attach point of `c`: a deepest Message of `c`'s
   * tree, or `c` itself when the tree holds no Message.
   */
  lemma AttachAppendsOneReply(ls: seq<Link>, ls': seq<Link>, ev: MessageEvent, botId: nat, userLinkId: nat, c: nat)
    requires WellFormed(ls) && UniqueConversations(ls) && IsEligible(ev, botId) && Step(ls, ls', ev, botId, userLinkId)
    requires ConversationNamed(ls, c, ChannelName(ev))
    ensures |ls'| == |ls| + 3
    ensures ls'[|ls| + 2] == ReplyLink(|ls| + 3, |ls| + 1, ls'[|ls| + 2].to)
    ensures AttachPoint(Ingest(ls, ev), c, ls'[|ls| + 2].to)
  {
    IngestNames(ls, ev);
    var ls2 := Ingest(ls, ev);
    var c', t :| ConversationNamed(ls2, c', ChannelName(ev)) && AttachPoint(ls2, c', t) && ls' == ls2 + [ReplyLink(|ls2| + 1, |ls| + 1, t)];
    assert ConversationNamed(ls, c', ChannelName(ev));
  }

  /**
   * The thread of Conversation `c` is the single chain `ms`: `c` is the only
   * Conversation named `name`, its tree holds exactly the Messages of `ms`, the
   * k-th of them (from 0) hangs at depth k + 1, and each replies to the one
   * before it, the first to `c` itself.
   */
  ghost predicate Chain(ls: seq<Link>, c: nat, name: string, ms: seq<nat>) {
    WellFormed(ls) &&
    (forall x :: ConversationNamed(ls, x, name) <==> x == c) &&
    (forall x :: InTree(ls, x, c) <==> x in ms) &&
    (forall k :: 0 <= k < |ms| ==>
      InTree(ls, ms[k], c) && Thread(ls, ms[k]).depth == k + 1 &&
      ReplyTarget(ls, ms[k]) == if k == 0 then c else ms[k - 1])
  }

  /** The first admitted Message of a channel without a Conversation opens one and starts its chain. */
  lemma ChainStart(ls: seq<Link>, ls': seq<Link>, ev: MessageEvent, botId: nat, userLinkId: nat)
    requires WellFormed(ls) && IsEligible(ev, botId) && Step(ls, ls', ev, botId, userLinkId)
    requires forall x :: !ConversationNamed(ls, x, ChannelName(ev))
    ensures Chain(ls', |ls| + 3, ChannelName(ev), [|ls| + 1])
  {
    var m := |ls| + 1;
    var c := |ls| + 3;
    StepShape(ls, ls', ev, botId, userLinkId);
    StepTreeFrame(ls, ls', ev, botId, userLinkId);
    StepConversations(ls, ls', ev, botId, userLinkId);
    OpenInbound(ls, ls', ev, botId, userLinkId);
    assert IsMessage(ls', m);
    assert Thread(ls', m) == Placement(c, 1);
    assert ReplyTarget(ls', m) == c;
    assert InTree(ls', m, c);
    assert forall x :: ConversationNamed(ls', x, ChannelName(ev)) <==> x == c;
    assert forall x :: InTree(ls', x, c) <==> x in [m];
  }

  /** In a chain, no Message of the tree is as deep as the last one except the last one itself. */
  lemma {:induction false} ChainDeepest(ls: seq<Link>, c: nat, name: string, ms: seq<nat>, t: nat)
    requires Chain(ls, c, name, ms) && |ms| >= 1 && InTree(ls, t, c)
    requires Thread(ls, ms[|ms| - 1]).depth <= Thread(ls, t).depth
    ensures t == ms[|ms| - 1]
  {
    var j :| 0 <= j < |ms| && ms[j] == t;
  }

  /** On a chain, the attach point an admitted Message of the channel finds is the chain's last Message. */
  lemma {:induction false} ChainAttach(ls: seq<Link>, ls': seq<Link>, ev: MessageEvent, botId: nat, userLinkId: nat, c: nat, ms: seq<nat>)
    requires Chain(ls, c, ChannelName(ev), ms) && |ms| >= 1
    requires IsEligible(ev, botId) && Step(ls, ls', ev, botId, userLinkId)
    ensures WellFormed(ls') && IsMessage(ls', |ls| + 1) && ReplyIndex(ls', |ls| + 1).Some?
    ensures ReplyTarget(ls', |ls| + 1) == ms[|ms| - 1]
    ensures Thread(ls', |ls| + 1) == Placement(c, |ms| + 1)
  {
    var m := |ls| + 1;
    var name := ChannelName(ev);
    var last := ms[|ms| - 1];
    var ls2 := Ingest(ls, ev);
    StepShape(ls, ls', ev, botId, userLinkId);
    IngestFrame(ls, ev);
    IngestNames(ls, ev);
    assert ConversationNamed(ls2, c, name);
    var c', t :| ConversationNamed(ls2, c', name) && AttachPoint(ls2, c', t) && ls' == ls2 + [ReplyLink(|ls2| + 1, m, t)];
    assert c' == c;
    assert InTree(ls2, last, c);
    ChainDeepest(ls, c, name, ms, t);
    StepTreeFrame(ls, ls', ev, botId, userLinkId);
    assert Thread(ls', last) == Placement(c, |ms|);
  }

  /** A chain grows by one Message when the table changes only by hanging that Message below its last one. */
  lemma {:induction false} ChainExtend(ls: seq<Link>, ls': seq<Link>, c: nat, name: string, ms: seq<nat>, m: nat)
    requires Chain(ls, c, name, ms) && |ms| >= 1 && WellFormed(ls')
    requires forall x :: ConversationNamed(ls', x, name) <==> ConversationNamed(ls, x, name)
    requires forall x, c :: x != m ==> (InTree(ls', x, c) <==> InTree(ls, x, c))
    requires forall x, c :: InTree(ls, x, c) ==>
      InTree(ls', x, c) && Thread(ls', x) == Thread(ls, x) && ReplyTarget(ls', x) == ReplyTarget(ls, x)
    requires IsMessage(ls', m) && ReplyIndex(ls', m).Some?
    requires ReplyTarget(ls', m) == ms[|ms| - 1] && Thread(ls', m) == Placement(c, |ms| + 1)
    ensures Chain(ls', c, name, ms + [m])
  {
    var ms' := ms + [m];
    forall k | 0 <= k < |ms'|
      ensures InTree(ls', ms'[k], c) && Thread(ls', ms'[k]).depth == k + 1
      ensures ReplyTarget(ls', ms'[k]) == if k == 0 then c else ms'[k - 1]
    {
      if k < |ms| {
        assert ms'[k] == ms[k];
      }
    }
  }

  /** Every further admitted Message of the channel replies to the last one of the chain and extends it by one. */
  lemma ChainStep(ls: seq<Link>, ls': seq<Link>, ev: MessageEvent, botId: nat, userLinkId: nat, c: nat, ms: seq<nat>)
    requires Chain(ls, c, ChannelName(ev), ms) && |ms| >= 1
    requires IsEligible(ev, botId) && Step(ls, ls', ev, botId, userLinkId)
    ensures Chain(ls', c, ChannelName(ev), ms + [|ls| + 1])
  {
    var m := |ls| + 1;
    var name := ChannelName(ev);
    ChainAttach(ls, ls', ev, botId, userLinkId, c, ms);
    assert forall x :: ConversationNamed(ls', x, name) <==> ConversationNamed(ls, x, name) by {
      StepConversations(ls, ls', ev, botId, userLinkId);
      assert ConversationNamed(ls, c, name);
    }
    assert (forall x, c :: x != m ==> (InTree(ls', x, c) <==> InTree(ls, x, c))) &&
      (forall x, c :: InTree(ls, x, c) ==>
        InTree(ls', x, c) && Thread(ls', x) == Thread(ls, x) && ReplyTarget(ls', x) == ReplyTarget(ls, x)) by {
      StepTreeFrame(ls, ls', ev, botId, userLinkId);
    }
    ChainExtend(ls, ls', c, name, ms, m);
  }

  /** `stores[k + 1]` is the table after `evs[k]` was handled on `stores[k]`, one event after another. */
  ghost predicate Run(stores: seq<seq<Link>>, evs: seq<MessageEvent>, botId: nat, userLinkId: nat) {
    |stores| == |evs| + 1 &&
    forall k :: 0 <= k < |evs| ==> RunStep(stores, evs, botId, userLinkId, k)
  }

  /** Event `k` of a run takes `stores[k]` to `stores[k + 1]`. */
  ghost predicate RunStep(stores: seq<seq<Link>>, evs: seq<MessageEvent>, botId: nat, userLinkId: nat, k: nat)
    requires k < |evs| && |stores| == |evs| + 1
  {
    Step(stores[k], stores[k + 1], evs[k], botId, userLinkId)
  }

  /** A chain survives a change of table that renames nothing, keeps its trees and adds no Message to its tree. */
  lemma {:induction false} ChainKeep(ls: seq<Link>, ls': seq<Link>, c: nat, name: string, ms: seq<nat>, m: nat)
    requires Chain(ls, c, name, ms) && WellFormed(ls') && m == |ls| + 1
    requires forall x :: ConversationNamed(ls', x, name) <==> ConversationNamed(ls, x, name)
    requires forall x, c :: x != m ==> (InTree(ls', x, c) <==> InTree(ls, x, c))
    requires forall x, c :: InTree(ls, x, c) ==>
      InTree(ls', x, c) && Thread(ls', x) == Thread(ls, x) && ReplyTarget(ls', x) == ReplyTarget(ls, x)
    requires !InTree(ls', m, c)
    ensures Chain(ls', c, name, ms)
  {
    forall x | x in ms
      ensures x != m
    {
      assert InTree(ls, x, c);
    }
  }

  /**
   * A Step that is not an admitted event of channel `name` leaves that
   * channel's thread as it was: its Conversation, the Messages in its tree,
   * their depths and their Reply targets.
   */
  lemma {:induction false} ChainFrame(ls: seq<Link>, ls': seq<Link>, ev: MessageEvent, botId: nat, userLinkId: nat, c: nat, name: string, ms: seq<nat>)
    requires Chain(ls, c, name, ms) && Step(ls, ls', ev, botId, userLinkId)
    requires !IsEligible(ev, botId) || ChannelName(ev) != name
    ensures Chain(ls', c, name, ms)
  {
    var m := |ls| + 1;
    assert forall x :: ConversationNamed(ls', x, name) <==> ConversationNamed(ls, x, name) by {
      StepConversations(ls, ls', ev, botId, userLinkId);
    }
    assert WellFormed(ls') &&
      (forall x, c :: x != m ==> (InTree(ls', x, c) <==> InTree(ls, x, c))) &&
      (forall x, c :: InTree(ls, x, c) ==>
        InTree(ls', x, c) && Thread(ls', x) == Thread(ls, x) && ReplyTarget(ls', x) == ReplyTarget(ls, x)) by {
      StepTreeFrame(ls, ls', ev, botId, userLinkId);
    }
    assert ConversationNamed(ls', c, name);
    NewMessageElsewhere(ls, ls', ev, botId, userLinkId, c, name);
    ChainKeep(ls, ls', c, name, ms, m);
  }

  /** The Message of a Step lands in no tree of a Conversation named after another channel. */
  lemma {:induction false} NewMessageElsewhere(ls: seq<Link>, ls': seq<Link>, ev: MessageEvent, botId: nat, userLinkId: nat, c: nat, name: string)
    requires WellFormed(ls) && Step(ls, ls', ev, botId, userLinkId) && ConversationNamed(ls', c, name)
    requires !IsEligible(ev, botId) || ChannelName(ev) != name
    ensures !InTree(ls', |ls| + 1, c)
  {
    if IsEligible(ev, botId) {
      StepPlacement(ls, ls', ev, botId, userLinkId);
    } else {
      assert ls' == ls;
      assert TypeOf(ls, |ls| + 1) != MessageType;
    }
  }

  /** A Step that is not an admitted event of channel `name` opens no Conversation named `name`. */
  lemma {:induction false} NoConversationFrame(ls: seq<Link>, ls': seq<Link>, ev: MessageEvent, botId: nat, userLinkId: nat, name: string)
    requires WellFormed(ls) && Step(ls, ls', ev, botId, userLinkId)
    requires !IsEligible(ev, botId) || ChannelName(ev) != name
    requires forall x :: !ConversationNamed(ls, x, name)
    ensures forall x :: !ConversationNamed(ls', x, name)
  {
    StepConversations(ls, ls', ev, botId, userLinkId);
  }

  /**
   * The state of channel `name` in table `ls` after its admitted Messages
   * `ms`: no Conversation for it while there are none, and otherwise the
   * chain of `ms` under Conversation `c`.
   */
  ghost predicate ThreadSoFar(ls: seq<Link>, name: string, c: nat, ms: seq<nat>) {
    WellFormed(ls) &&
    (ms == [] ==> forall x :: !ConversationNamed(ls, x, name)) &&
    (ms != [] ==> Chain(ls, c, name, ms))
  }

  /**
   * A channel's Conversation and admitted Messages after one more event was
   * handled on `ls`, when before it they were `c` and `ms`: an event the
   * channel admits (`admitted`) adds its Message, id `|ls| + 1`, and opens the
   * Conversation, id `|ls| + 3`, when it is the first; any other event adds
   * nothing.
   */
  function NextThread(ls: seq<Link>, admitted: bool, c: nat, ms: seq<nat>): (nat, seq<nat>) {
    if !admitted then (c, ms)
    else if ms == [] then (|ls| + 3, [|ls| + 1])
    else (c, ms + [|ls| + 1])
  }

  /**
   * One handled event, seen from channel `name`, whose thread so far is `ms`
   * under `c` (no Conversation at all while `ms` is empty): an admitted event
   * of the channel opens the thread or extends it by its Message, and any
   * other event leaves it as it was.
   */
  lemma {:induction false} ThreadStep(ls: seq<Link>, ls': seq<Link>, ev: MessageEvent, botId: nat, userLinkId: nat, name: string, c: nat, ms: seq<nat>)
    requires Step(ls, ls', ev, botId, userLinkId) && ThreadSoFar(ls, name, c, ms)
    ensures var next := NextThread(ls, IsEligible(ev, botId) && ChannelName(ev) == name, c, ms);
      ThreadSoFar(ls', name, next.0, next.1)
  {
    StepWellFormed(ls, ls', ev, botId, userLinkId);
    if IsEligible(ev, botId) && ChannelName(ev) == name {
      if ms == [] {
        ChainStart(ls, ls', ev, botId, userLinkId);
      } else {
        ChainStep(ls, ls', ev, botId, userLinkId, c, ms);
      }
    } else if ms == [] {
      NoConversationFrame(ls, ls', ev, botId, userLinkId, name);
    } else {
      ChainFrame(ls, ls', ev, botId, userLinkId, c, name, ms);
    }
  }

  /** The positions, in order, of the events among the first `n` that are admitted and come from channel `ch`. */
  function Admitted(evs: seq<MessageEvent>, botId: nat, ch: nat, n: nat): (ks: seq<nat>)
    requires n <= |evs|
    ensures forall j :: 0 <= j < |ks| ==> ks[j] < n
  {
    if n == 0 then []
    else Admitted(evs, botId, ch, n - 1) + (if IsEligible(evs[n - 1], botId) && evs[n - 1].channelId == ch then [n - 1] else [])
  }

  /** `Admitted` lists exactly the admitted events of the channel, each once, in the order they were handled. */
  lemma {:induction false} AdmittedIff(evs: seq<MessageEvent>, botId: nat, ch: nat, n: nat)
    requires n <= |evs|
    ensures forall k: nat {:trigger k in Admitted(evs, botId, ch, n)} ::
      k in Admitted(evs, botId, ch, n) <==> k < n && IsEligible(evs[k], botId) && evs[k].channelId == ch
    ensures forall i, j :: 0 <= i < j < |Admitted(evs, botId, ch, n)| ==> Admitted(evs, botId, ch, n)[i] < Admitted(evs, botId, ch, n)[j]
  {
    if n > 0 {
      AdmittedIff(evs, botId, ch, n - 1);
      var ks := Admitted(evs, botId, ch, n - 1);
      if IsEligible(evs[n - 1], botId) && evs[n - 1].channelId == ch {
        assert Admitted(evs, botId, ch, n) == ks + [n - 1];
      } else {
        assert Admitted(evs, botId, ch, n) == ks + [];
        assert ks + [] == ks;
      }
    }
  }

  /** The ids the events at positions `ks` of a run give their Messages: each takes the next free id of its table. */
  function MessageIds(stores: seq<seq<Link>>, ks: seq<nat>): seq<nat>
    requires forall j :: 0 <= j < |ks| ==> ks[j] < |stores|
  {
    seq(|ks|, j requires 0 <= j < |ks| => |stores[ks[j]]| + 1)
  }

  /** The Conversation a channel's thread hangs under: the one opened by the channel's first admitted event. */
  function Opened(stores: seq<seq<Link>>, ks: seq<nat>): nat
    requires forall j :: 0 <= j < |ks| ==> ks[j] < |stores|
  {
    if ks == [] then 0 else |stores[ks[0]]| + 3
  }

  /** Channel `ch`'s Conversation and admitted Messages after the first `n` events of a run. */
  function ThreadAfter(stores: seq<seq<Link>>, evs: seq<MessageEvent>, botId: nat, ch: nat, n: nat): (nat, seq<nat>)
    requires n <= |evs| && |stores| == |evs| + 1
  {
    (Opened(stores, Admitted(evs, botId, ch, n)), MessageIds(stores, Admitted(evs, botId, ch, n)))
  }

  /**
   * Along any run that starts from a well-formed table with no Conversation
   * for channel `ch`, after `n` events the channel has no Conversation while
   * none of its events was admitted, and otherwise its thread is the chain of
   * the Messages of its admitted events, in order, under the Conversation the
   * first of them opened; rejected events and other channels' events in
   * between change nothing of it.
   */
  lemma {:induction false} RunChain(stores: seq<seq<Link>>, evs: seq<MessageEvent>, botId: nat, userLinkId: nat, ch: nat, n: nat)
    requires Run(stores, evs, botId, userLinkId) && WellFormed(stores[0])
    requires forall x :: !ConversationNamed(stores[0], x, Decimal.NatToString(ch))
    requires n <= |evs|
    ensures ThreadSoFar(stores[n], Decimal.NatToString(ch), ThreadAfter(stores, evs, botId, ch, n).0, ThreadAfter(stores, evs, botId, ch, n).1)
    decreases n
  {
    if n > 0 {
      RunChain(stores, evs, botId, userLinkId, ch, n - 1);
      RunChainStep(stores, evs, botId, userLinkId, ch, n);
    }
  }

  /** The inductive step of `RunChain`: event `n - 1` moves the channel's thread from `stores[n - 1]` to `stores[n]`. */
  lemma {:induction false} RunChainStep(stores: seq<seq<Link>>, evs: seq<MessageEvent>, botId: nat, userLinkId: nat, ch: nat, n: nat)
    requires Run(stores, evs, botId, userLinkId) && 1 <= n <= |evs|
    requires ThreadSoFar(stores[n - 1], Decimal.NatToString(ch), ThreadAfter(stores, evs, botId, ch, n - 1).0, ThreadAfter(stores, evs, botId, ch, n - 1).1)
    ensures ThreadSoFar(stores[n], Decimal.NatToString(ch), ThreadAfter(stores, evs, botId, ch, n).0, ThreadAfter(stores, evs, botId, ch, n).1)
  {
    var k := n - 1;
    var prev := ThreadAfter(stores, evs, botId, ch, k);
    assert RunStep(stores, evs, botId, userLinkId, k);
    Decimal.RenderInjective(evs[k].channelId, ch);
    ThreadStep(stores[k], stores[n], evs[k], botId, userLinkId, Decimal.NatToString(ch), prev.0, prev.1);
    AdmittedNext(stores, evs, botId, ch, n);
  }

  /**
   * How event `n - 1` changes what channel `ch` has admitted: an admitted
   * event of the channel adds its Message (opening the Conversation when it is
   * the first), and any other event adds nothing.
   */
  lemma {:induction false} AdmittedNext(stores: seq<seq<Link>>, evs: seq<MessageEvent>, botId: nat, ch: nat, n: nat)
    requires 1 <= n <= |evs| && |stores| == |evs| + 1
    ensures ThreadAfter(stores, evs, botId, ch, n) ==
      NextThread(stores[n - 1], IsEligible(evs[n - 1], botId) && evs[n - 1].channelId == ch,
        ThreadAfter(stores, evs, botId, ch, n - 1).0, ThreadAfter(stores, evs, botId, ch, n - 1).1)
  {
    var prev := ThreadAfter(stores, evs, botId, ch, n - 1);
    if IsEligible(evs[n - 1], botId) && evs[n - 1].channelId == ch {
      AdmittedNextIn(stores, evs, botId, ch, n);
    } else {
      AdmittedNextOut(stores, evs, botId, ch, n);
      assert NextThread(stores[n - 1], false, prev.0, prev.1) == prev;
    }
  }

  /** `AdmittedNext` for an admitted event of the channel. */
  lemma {:induction false} AdmittedNextIn(stores: seq<seq<Link>>, evs: seq<MessageEvent>, botId: nat, ch: nat, n: nat)
    requires 1 <= n <= |evs| && |stores| == |evs| + 1
    requires IsEligible(evs[n - 1], botId) && evs[n - 1].channelId == ch
    ensures ThreadAfter(stores, evs, botId, ch, n) ==
      NextThread(stores[n - 1], true, ThreadAfter(stores, evs, botId, ch, n - 1).0, ThreadAfter(stores, evs, botId, ch, n - 1).1)
  {
    var ks := Admitted(evs, botId, ch, n - 1);
    var ls := stores[n - 1];
    var ms := MessageIds(stores, ks);
    assert Admitted(evs, botId, ch, n) == ks + [n - 1];
    IdsSnoc(stores, ks, n - 1);
    if ms == [] {
      assert ms + [|ls| + 1] == [|ls| + 1];
    }
  }

  /** `AdmittedNext` for any other event. */
  lemma {:induction false} AdmittedNextOut(stores: seq<seq<Link>>, evs: seq<MessageEvent>, botId: nat, ch: nat, n: nat)
    requires 1 <= n <= |evs| && |stores| == |evs| + 1
    requires !(IsEligible(evs[n - 1], botId) && evs[n - 1].channelId == ch)
    ensures ThreadAfter(stores, evs, botId, ch, n) == ThreadAfter(stores, evs, botId, ch, n - 1)
  {
    var ks := Admitted(evs, botId, ch, n - 1);
    assert Admitted(evs, botId, ch, n) == ks + [];
    assert ks + [] == ks;
  }

  /** Adding position `k` to the admitted positions adds the Message id it gives, and opens the Conversation when it is the first. */
  lemma {:induction false} IdsSnoc(stores: seq<seq<Link>>, ks: seq<nat>, k: nat)
    requires k < |stores| && forall j :: 0 <= j < |ks| ==> ks[j] < |stores|
    ensures MessageIds(stores, ks + [k]) == MessageIds(stores, ks) + [|stores[k]| + 1]
    ensures Opened(stores, ks + [k]) == if MessageIds(stores, ks) == [] then |stores[k]| + 3 else Opened(stores, ks)
  {
    var ks' := ks + [k];
    assert ks'[..|ks|] == ks;
    if ks != [] {
      assert ks'[0] == ks[0];
    }
  }


  /** A chain's Messages one by one: each is in the tree at its depth and replies to its predecessor. */
  lemma {:induction false} ChainLinks(ls: seq<Link>, c: nat, name: string, ms: seq<nat>)
    requires Chain(ls, c, name, ms)
    ensures forall x :: ConversationNamed(ls, x, name) <==> x == c
    ensures forall x :: InTree(ls, x, c) <==> x in ms
    ensures forall j {:trigger ms[j]} :: 0 <= j < |ms| ==>
      InTree(ls, ms[j], c) && Thread(ls, ms[j]).depth == j + 1 &&
      ReplyTarget(ls, ms[j]) == if j == 0 then c else ms[j - 1]
  {
    forall j {:trigger ms[j]} | 0 <= j < |ms|
      ensures InTree(ls, ms[j], c) && Thread(ls, ms[j]).depth == j + 1 &&
        ReplyTarget(ls, ms[j]) == if j == 0 then c else ms[j - 1]
    {
    }
  }

  /**
   * The Messages of one channel form a single linear thread whatever else is
   * handled in between: after a run from a table with no Conversation for
   * channel `ch`, in which at least one event of `ch` was admitted, the
   * Conversation opened by the first of them is the only one named after the
   * channel; its tree holds exactly the Messages `ms` of the channel's
   * admitted events `ks` (the j-th of them, from 0, has id
   * `|stores[ks[j]]| + 1`); and the
   * j-th hangs at depth j + 1 and replies to that Conversation (j = 0) or to
   * the channel's previous admitted Message.
   */
  lemma {:induction false} LinearThread(stores: seq<seq<Link>>, evs: seq<MessageEvent>, botId: nat, userLinkId: nat, ch: nat, ks: seq<nat>, ms: seq<nat>)
    requires Run(stores, evs, botId, userLinkId) && WellFormed(stores[0])
    requires forall x :: !ConversationNamed(stores[0], x, Decimal.NatToString(ch))
    requires ks == Admitted(evs, botId, ch, |evs|) && ks != [] && ms == MessageIds(stores, ks)
    ensures forall x :: ConversationNamed(stores[|evs|], x, Decimal.NatToString(ch)) <==> x == |stores[ks[0]]| + 3
    ensures forall x :: InTree(stores[|evs|], x, |stores[ks[0]]| + 3) <==> x in ms
    ensures forall j {:trigger ms[j]} :: 0 <= j < |ms| ==>
      InTree(stores[|evs|], ms[j], |stores[ks[0]]| + 3) && Thread(stores[|evs|], ms[j]).depth == j + 1 &&
      ReplyTarget(stores[|evs|], ms[j]) == if j == 0 then |stores[ks[0]]| + 3 else ms[j - 1]
  {
    var c := |stores[ks[0]]| + 3;
    RunChain(stores, evs, botId, userLinkId, ch, |evs|);
    assert ThreadAfter(stores, evs, botId, ch, |evs|) == (c, ms);
    assert ms != [] by { assert |ms| == |ks|; }
    ChainLinks(stores[|evs|], |stores[ks[0]]| + 3, Decimal.NatToString(ch), ms);
  }
}
