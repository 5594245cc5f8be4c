/**
 * The graph store as the handler sees it: an append-only table of links.
 *
 * Each link has an id, a type, `from` and `to` endpoints (0 when absent) and an
 * optional string value.  Ids are handed out in insertion order starting at 1,
 * so the link with id `x` sits at position `x - 1`.  The store's type look-up
 * by name is replaced by fixed, distinct type ids.
 */
module Links {
  import opened Wrappers

  const ConversationType: nat := 1
  const MessageType: nat := 2
  const ContainType: nat := 3
  const ReplyType: nat := 4
  const MessageIdType: nat := 5

  datatype Link = Link(id: nat, typeId: nat, from: nat, to: nat, value: Option<string>)

  /** The type of the link with id `x`, or 0 when there is no such link. */
  function TypeOf(ls: seq<Link>, x: nat): nat {
    if 1 <= x <= |ls| then ls[x - 1].typeId else 0
  }

  predicate IsMessage(ls: seq<Link>, x: nat) {
    TypeOf(ls, x) == MessageType
  }

  predicate IsConversation(ls: seq<Link>, x: nat) {
    TypeOf(ls, x) == ConversationType
  }

  /** `x` is a Conversation whose value is exactly `name`. */
  predicate ConversationNamed(ls: seq<Link>, x: nat, name: string) {
    IsConversation(ls, x) && ls[x - 1].value == Some(name)
  }

  predicate IsReplyFrom(l: Link, m: nat) {
    l.typeId == ReplyType && l.from == m
  }

  /** The position of the first Reply link going out of `m`, if any. */
  function ReplyIndex(ls: seq<Link>, m: nat): (r: Option<nat>)
    ensures r.Some? ==> r.value < |ls| && IsReplyFrom(ls[r.value], m)
    ensures r.Some? ==> forall j :: 0 <= j < r.value ==> !IsReplyFrom(ls[j], m)
    ensures r.None? ==> forall j :: 0 <= j < |ls| ==> !IsReplyFrom(ls[j], m)
  {
    if ls == [] then None
    else
      var earlier := ReplyIndex(ls[..|ls| - 1], m);
      if earlier.Some? then earlier
      else if IsReplyFrom(ls[|ls| - 1], m) then Some(|ls| - 1)
      else None
  }

  /**
   * What every Reply link in a table built by the handler satisfies: it leaves
   * a Message, it is that Message's only Reply, and it points at a Conversation
   * or at a Message that was already threaded before it.
   */
  ghost predicate ReplyOk(ls: seq<Link>, i: nat)
    requires i < |ls|
  {
    var l := ls[i];
    IsMessage(ls, l.from) && ReplyIndex(ls, l.from) == Some(i) &&
    (IsConversation(ls, l.to) ||
     (IsMessage(ls, l.to) && ReplyIndex(ls, l.to).Some? && ReplyIndex(ls, l.to).value < i))
  }

  /**
   * The table the handler builds: ids follow positions, every `to` names an
   * earlier link (or is 0), and every Reply is well placed.
   */
  ghost predicate WellFormed(ls: seq<Link>) {
    (forall i :: 0 <= i < |ls| ==> ls[i].id == i + 1 && ls[i].to <= i) &&
    (forall i {:trigger ReplyOk(ls, i)} :: 0 <= i < |ls| && ls[i].typeId == ReplyType ==> ReplyOk(ls, i))
  }

  /** Where a threaded Message hangs: the Conversation its Reply chain ends at, and the chain's length. */
  datatype Placement = Placement(root: nat, depth: nat)

  /**
   * Follows the Reply chain out of `m` to its Conversation.  This is the
   * store's messaging tree, rooted at each Conversation: a Message replying to
   * the Conversation has depth 1, one replying to a Message of depth d has
   * depth d + 1.
   */
  function Thread(ls: seq<Link>, m: nat): (p: Placement)
    requires WellFormed(ls) && ReplyIndex(ls, m).Some?
    ensures IsConversation(ls, p.root) && p.depth >= 1
    decreases ReplyIndex(ls, m).value
  {
    var j := ReplyIndex(ls, m).value;
    assert ReplyOk(ls, j);
    var t := ls[j].to;
    if IsConversation(ls, t) then Placement(t, 1)
    else
      var p := Thread(ls, t);
      Placement(p.root, p.depth + 1)
  }

  /** `x` is a Message in the messaging tree of Conversation `c`. */
  ghost predicate InTree(ls: seq<Link>, x: nat, c: nat) {
    WellFormed(ls) && IsMessage(ls, x) && ReplyIndex(ls, x).Some? && Thread(ls, x).root == c
  }

  /** Appending links that add no Reply out of `m` (or appending anything once `m` has one) keeps `m`'s Reply where it was. */
  lemma {:induction false} ReplyIndexExtend(ls: seq<Link>, tail: seq<Link>, m: nat)
    requires ReplyIndex(ls, m).Some? || forall j :: 0 <= j < |tail| ==> !IsReplyFrom(tail[j], m)
    ensures ReplyIndex(ls + tail, m) == ReplyIndex(ls, m)
  {
    var all := ls + tail;
    var r := ReplyIndex(all, m);
    if ReplyIndex(ls, m).Some? {
      var j := ReplyIndex(ls, m).value;
      assert IsReplyFrom(all[j], m);
    }
  }

  /**
   * Appending links never moves a threaded Message: it stays in the tree of
   * its Conversation, at the same depth.
   */
  lemma {:induction false} ThreadExtend(ls: seq<Link>, tail: seq<Link>, m: nat)
    requires WellFormed(ls) && WellFormed(ls + tail) && ReplyIndex(ls, m).Some?
    ensures ReplyIndex(ls + tail, m) == ReplyIndex(ls, m)
    ensures Thread(ls + tail, m) == Thread(ls, m)
    ensures forall c :: InTree(ls, m, c) ==> InTree(ls + tail, m, c)
    decreases ReplyIndex(ls, m).value
  {
    var all := ls + tail;
    ReplyIndexExtend(ls, tail, m);
    var j := ReplyIndex(ls, m).value;
    assert ReplyOk(ls, j);
    var t := ls[j].to;
    assert all[j] == ls[j];
    if !IsConversation(ls, t) {
      ThreadExtend(ls, tail, t);
    }
  }

  /** The first Reply out of a Message that had none is the one just appended. */
  lemma {:induction false} ReplyIndexAppendReply(ls: seq<Link>, r: Link, m: nat)
    requires ReplyIndex(ls, m).None? && IsReplyFrom(r, m)
    ensures ReplyIndex(ls + [r], m) == Some(|ls|)
  {
    assert (ls + [r])[..|ls|] == ls;
  }

  /** A Reply that was well placed stays well placed whatever is appended after it. */
  lemma ReplyOkExtend(ls: seq<Link>, tail: seq<Link>, i: nat)
    requires i < |ls| && ReplyOk(ls, i)
    ensures ReplyOk(ls + tail, i)
  {
    var all := ls + tail;
    assert all[i] == ls[i];
    ReplyIndexExtend(ls, tail, ls[i].from);
    if ReplyIndex(ls, ls[i].to).Some? {
      ReplyIndexExtend(ls, tail, ls[i].to);
    }
  }

  /** Appending links with the next ids, whose own Replies are well placed, keeps the table well formed. */
  lemma WellFormedExtend(ls: seq<Link>, tail: seq<Link>)
    requires WellFormed(ls)
    requires forall k :: 0 <= k < |tail| ==> tail[k].id == |ls| + k + 1 && tail[k].to <= |ls| + k
    requires forall k :: 0 <= k < |tail| && tail[k].typeId == ReplyType ==> ReplyOk(ls + tail, |ls| + k)
    ensures WellFormed(ls + tail)
  {
    var all := ls + tail;
    forall i | 0 <= i < |all| && all[i].typeId == ReplyType
      ensures ReplyOk(all, i)
    {
      if i < |ls| {
        assert all[i] == ls[i];
        ReplyOkExtend(ls, tail, i);
      } else {
        assert all[i] == tail[i - |ls|];
      }
    }
  }

  /** Where the Reply out of `m` points. */
  function ReplyTarget(ls: seq<Link>, m: nat): nat
    requires ReplyIndex(ls, m).Some?
  {
    ls[ReplyIndex(ls, m).value].to
  }

  /** How many Reply links `s` holds. */
  function ReplyCount(s: seq<Link>): nat {
    if s == [] then 0
    else ReplyCount(s[..|s| - 1]) + (if s[|s| - 1].typeId == ReplyType then 1 else 0)
  }

  lemma {:induction false} ReplyCountAppend(a: seq<Link>, b: seq<Link>)
    ensures ReplyCount(a + b) == ReplyCount(a) + ReplyCount(b)
    decreases |b|
  {
    if b != [] {
      var b' := b[..|b| - 1];
      assert (a + b)[..|a + b| - 1] == a + b';
      ReplyCountAppend(a, b');
    } else {
      assert a + b == a;
    }
  }

  /**
   * Appending links whose only Replies leave `m` changes no messaging tree
   * except by adding `m`: every other Message is in the same tree, at the same
   * depth, before and after.
   */
  lemma {:induction false} TreeFrame(ls: seq<Link>, tail: seq<Link>, m: nat)
    requires WellFormed(ls) && WellFormed(ls + tail)
    requires forall k :: 0 <= k < |tail| && tail[k].typeId == ReplyType ==> tail[k].from == m
    ensures forall x, c :: x != m ==> (InTree(ls + tail, x, c) <==> InTree(ls, x, c))
    ensures forall x, c :: InTree(ls, x, c) ==> InTree(ls + tail, x, c) && Thread(ls + tail, x) == Thread(ls, x)
    ensures forall x :: x != m ==> ReplyIndex(ls + tail, x) == ReplyIndex(ls, x)
  {
    forall x: nat | x != m
      ensures ReplyIndex(ls + tail, x) == ReplyIndex(ls, x)
    {
      ReplyIndexExtend(ls, tail, x);
    }
    forall x, c | InTree(ls, x, c)
      ensures InTree(ls + tail, x, c) && Thread(ls + tail, x) == Thread(ls, x)
    {
      ThreadExtend(ls, tail, x);
    }
    forall x, c | x != m && InTree(ls + tail, x, c)
      ensures InTree(ls, x, c)
    {
      var j := ReplyIndex(ls, x).value;
      assert ReplyOk(ls, j);
      ThreadExtend(ls, tail, x);
    }
  }
}
