/**
 * The pure front half of the MessageCreate handler: which gateway events are
 * handled at all, and what text is stored for an admitted one.
 */
module Classifier {
  import opened Wrappers
  import Decimal

  /** The gateway's channel kinds. */
  datatype ChannelType =
    | GuildText | DM | GuildVoice | GroupDM | GuildCategory | GuildAnnouncement
    | AnnouncementThread | PublicThread | PrivateThread
    | GuildStageVoice | GuildDirectory | GuildForum | GuildMedia

  /** The only channel kinds the handler answers in. */
  const AllowedChannelTypes: seq<ChannelType> := [PublicThread, PrivateThread]

  /**
   * One message-create event, with the results of the two gateway look-ups the
   * handler awaits already filled in: the fetched channel's type and, when the
   * message quotes another one, the text of the fetched quoted message.
   */
  datatype MessageEvent = MessageEvent(
    id: nat,
    channelId: nat,
    channelType: ChannelType,
    content: string,
    authorIsBot: bool,
    reference: Option<string>)

  /** Substring test with the semantics of JavaScript's `String.prototype.includes`. */
  predicate Contains(s: string, t: string)
    decreases |s|
  {
    |t| <= |s| && (s[..|t|] == t || Contains(s[1..], t))
  }

  /** `t` occurs in `s` starting at position `i`. */
  ghost predicate OccursAt(s: string, t: string, i: int) {
    0 <= i && i + |t| <= |s| && s[i..i + |t|] == t
  }

  /** `Contains` agrees with the positional definition of a substring, both ways. */
  lemma {:induction false} ContainsIff(s: string, t: string)
    ensures Contains(s, t) <==> exists i :: OccursAt(s, t, i)
    decreases |s|
  {
    if |t| <= |s| {
      assert s[0..|t|] == s[..|t|];
      if s[..|t|] != t {
        ContainsIff(s[1..], t);
        forall i | OccursAt(s[1..], t, i)
          ensures OccursAt(s, t, i + 1)
        {
          assert s[i + 1..i + 1 + |t|] == s[1..][i..i + |t|];
        }
        forall i | OccursAt(s, t, i)
          ensures OccursAt(s[1..], t, i - 1)
        {
          assert s[i..i + |t|] != s[..|t|];
          assert s[i..i + |t|] == s[1..][i - 1..i - 1 + |t|];
        }
      } else {
        assert OccursAt(s, t, 0);
      }
    }
  }

  /** The mention token the gateway puts in a message that mentions the bot. */
  function MentionToken(botId: nat): string {
    "<@" + Decimal.NatToString(botId) + ">"
  }

  /** The token is `<@`, then digits that read back as the bot's id, then `>`. */
  lemma MentionTokenShape(botId: nat)
    ensures var t := MentionToken(botId);
      |t| >= 4 && t[..2] == "<@" && t[|t| - 1] == '>' &&
      Decimal.IsDigits(t[2..|t| - 1]) && Decimal.ParseDecimal(t[2..|t| - 1]) == botId
  {
    var t := MentionToken(botId);
    assert t[2..|t| - 1] == Decimal.NatToString(botId);
    Decimal.ParseRender(botId);
  }

  /** The handler's guard: mentions the bot, written by a person, in a thread. */
  predicate IsEligible(ev: MessageEvent, botId: nat) {
    Contains(ev.content, MentionToken(botId)) && !ev.authorIsBot && ev.channelType in AllowedChannelTypes
  }

  /** An event is admitted exactly when the token occurs somewhere in its text, a person wrote it, and it came from a public or private thread. */
  lemma EligibleIff(ev: MessageEvent, botId: nat)
    ensures IsEligible(ev, botId) <==>
      (exists i :: OccursAt(ev.content, MentionToken(botId), i))
      && !ev.authorIsBot
      && (ev.channelType == PublicThread || ev.channelType == PrivateThread)
  {
    ContainsIff(ev.content, MentionToken(botId));
  }

  /** The text placed between the quoted message and the new one: a line break, ten spaces, `---`, a line break, ten spaces. */
  const Separator: string := "\n          ---\n          "

  /**
   * The text stored for an admitted message: its own text verbatim, or, when it
   * quotes another message, the quoted text, the separator and its own text.
   * Quoting is flattened one level only: the quoted text is taken as it is.
   */
  function AssembleContent(ev: MessageEvent): string {
    match ev.reference
    case None => ev.content
    case Some(q) => q + Separator + ev.content
  }

  /** Neither part is transformed: the stored text splits back into the quoted text, the separator and the message text. */
  lemma QuoteLayout(ev: MessageEvent)
    ensures ev.reference.None? ==> AssembleContent(ev) == ev.content
    ensures ev.reference.Some? ==>
      var q := ev.reference.value;
      var r := AssembleContent(ev);
      |r| == |q| + |Separator| + |ev.content|
      && r[..|q|] == q
      && r[|q|..|q| + |Separator|] == Separator
      && r[|q| + |Separator|..] == ev.content
  {
  }

  /** Quoting never hides a token: whatever the message's own text contains, the stored text contains too. */
  lemma {:induction false} QuotingKeepsToken(ev: MessageEvent, token: string)
    requires Contains(ev.content, token)
    ensures Contains(AssembleContent(ev), token)
  {
    var r := AssembleContent(ev);
    ContainsIff(ev.content, token);
    ContainsIff(r, token);
    if ev.reference.Some? {
      var k := |ev.reference.value| + |Separator|;
      var i :| OccursAt(ev.content, token, i);
      assert r[k + i..k + i + |token|] == ev.content[i..i + |token|];
      assert OccursAt(r, token, k + i);
    }
  }
}
