/**
  The placeholder stage of `formatMessage` (src/index.ts): the values taken
  from the session and the bot, and the chain of eight global `.replace`
  calls that substitutes them into the template. `{at}` is not replaced
  here; it is left in the text for the mention pass in module Elements.
 */
module Placeholders {
  import opened Nullable
  import opened Strings
  import opened Replacement

  // ----- the values -----

  /** `a ?? b`. */
  function Coalesce<T>(a: Option<T>, b: Option<T>): Option<T>
  {
    if a.Some? then a else b
  }

  /** `a ?? ""`. */
  function OrEmpty(a: Option<string>): string
  {
    if a.Some? then a.value else ""
  }

  /** `getNotEmptyText(...)`: the first argument that is present and not
      empty, or `""` when there is none. */
  function FirstNonEmpty(texts: seq<Option<string>>): (r: string)
    ensures r == "" <==> forall k | 0 <= k < |texts| :: texts[k] == None || texts[k] == Some("")
    ensures r != "" ==> exists k | 0 <= k < |texts| ::
      (texts[k] == Some(r) && forall j | 0 <= j < k :: texts[j] == None || texts[j] == Some(""))
    decreases |texts|
  {
    if |texts| == 0 then ""
    else if texts[0].Some? && |texts[0].value| > 0 then texts[0].value
    else
      var r := FirstNonEmpty(texts[1..]);
      assert forall k | 1 <= k < |texts| :: texts[k] == texts[1..][k - 1];
      if r != "" then
        var k :| 0 <= k < |texts[1..]| && texts[1..][k] == Some(r) &&
          forall j | 0 <= j < k :: texts[1..][j] == None || texts[1..][j] == Some("");
        assert texts[k + 1] == Some(r);
        r
      else r
  }

  /** `getNotEmptyText`: the loop over the arguments, returning the first
      one that is not null and has a positive length. */
  method GetNotEmptyText(texts: seq<Option<string>>) returns (r: string)
    ensures r == FirstNonEmpty(texts)
  {
    for i := 0 to |texts|
      invariant FirstNonEmpty(texts) == FirstNonEmpty(texts[i..])
    {
      var text := texts[i];
      if text.Some? && |text.value| > 0 {
        return text.value;
      }
      assert texts[i..][1..] == texts[i + 1..];
    }
    return "";
  }

  /** What the bot reports for a guild's members: a plain array (older
      adapters) or a page object whose `data` holds the members. */
  datatype MemberList = Plain(members: seq<string>) | Page(data: seq<string>, next: Option<string>)

  /** `groupMemberCount`: the array's length or the page's `data` length. */
  function MemberCount(list: MemberList): (r: nat)
    ensures list.Plain? ==> r == |list.members|
    ensures list.Page? ==> r == |list.data|
  {
    match list
    case Plain(members) => |members|
    case Page(data, _) => |data|
  }

  /** The parts of the session the formatter reads. */
  datatype Session = Session(
    platform: string,                 // session.bot.platform
    userId: Option<string>,           // session.userId
    guildId: Option<string>,          // session.guildId
    username: Option<string>,         // session.username
    authorId: Option<string>,         // session.author?.id
    authorNick: Option<string>,       // session.author.nick
    authorName: Option<string>,       // session.author.name
    authorAvatar: Option<string>,     // session.author.avatar
    eventUserId: Option<string>,      // session.event.user?.id
    eventUserName: Option<string>,    // session.event.user.name
    eventGuildId: Option<string>,     // session.event.guild?.id
    eventGuildName: Option<string>)   // session.event.guild?.name

  /** What the formatter obtains from outside before substituting: the
      bot's guild name and member list, the current time as
      `toLocaleString` formats it, and the fetched quote. */
  datatype Fetched = Fetched(guildName: Option<string>, members: MemberList, time: string, quote: string)

  /** `guildId`: the event's guild id, else the session's. */
  function GuildId(s: Session): (r: Option<string>)
    ensures r.Some? <==> s.eventGuildId.Some? || s.guildId.Some?
    ensures s.eventGuildId.Some? ==> r == s.eventGuildId
    ensures s.eventGuildId.None? ==> r == s.guildId
  {
    Coalesce(s.eventGuildId, s.guildId)
  }

  /** `userId`: the author's id, else the event user's, else the session's. */
  function UserId(s: Session): (r: Option<string>)
    ensures r.Some? <==> s.authorId.Some? || s.eventUserId.Some? || s.userId.Some?
    ensures s.authorId.Some? ==> r == s.authorId
    ensures s.authorId.None? && s.eventUserId.Some? ==> r == s.eventUserId
    ensures s.authorId.None? && s.eventUserId.None? ==> r == s.userId
  {
    Coalesce(s.authorId, Coalesce(s.eventUserId, s.userId))
  }

  /** `groupName`: the bot's guild name, else the event's, else `""`. */
  function GroupName(s: Session, f: Fetched): (r: string)
    ensures f.guildName.Some? ==> r == f.guildName.value
    ensures f.guildName.None? && s.eventGuildName.Some? ==> r == s.eventGuildName.value
    ensures f.guildName.None? && s.eventGuildName.None? ==> r == ""
  {
    OrEmpty(Coalesce(f.guildName, s.eventGuildName))
  }

  /** The QQ avatar service the OneBot and Red adapters are served from. */
  const QQAvatarPrefix: string := "https://q.qlogo.cn/headimg_dl?dst_uin="
  const QQAvatarSuffix: string := "&spec=640"

  /** `${session.userId?.toString()}`: the id, or `"undefined"` when absent. */
  function Interpolated(a: Option<string>): (r: string)
    ensures a.Some? ==> r == a.value
    ensures a.None? ==> r == "undefined"
  {
    if a.Some? then a.value else "undefined"
  }

  /** `avatar`: on the OneBot and Red platforms, when a user id was found,
      the QQ avatar URL for `session.userId`; elsewhere the author's avatar. */
  function Avatar(s: Session): (r: Option<string>)
    ensures (s.platform == "onebot" || s.platform == "red") && UserId(s).Some? ==>
      r.Some? && QQAvatarPrefix <= r.value &&
      r.value[|QQAvatarPrefix|..] == Interpolated(s.userId) + QQAvatarSuffix
    ensures !((s.platform == "onebot" || s.platform == "red") && UserId(s).Some?) ==> r == s.authorAvatar
  {
    if (s.platform == "onebot" || s.platform == "red") && UserId(s).Some? then
      var url := QQAvatarPrefix + Interpolated(s.userId) + QQAvatarSuffix;
      assert url[|QQAvatarPrefix|..] == Interpolated(s.userId) + QQAvatarSuffix;
      Some(url)
    else s.authorAvatar
  }

  const AvatarOpen: string := "![avatar]("
  const AvatarClose: string := ")"

  /** The `{avatar}` value: a markdown image whose URL is the avatar, or
      empty when there is none. */
  function AvatarFragment(avatar: Option<string>): (r: string)
    ensures AvatarOpen <= r
    ensures |r| == |AvatarOpen| + |OrEmpty(avatar)| + |AvatarClose|
  {
    AvatarOpen + OrEmpty(avatar) + AvatarClose
  }

  /** The URL a markdown image fragment `![avatar](url)` points at. */
  function FragmentUrl(fragment: string): Option<string>
  {
    if |fragment| >= |AvatarOpen| + |AvatarClose| &&
       AvatarOpen <= fragment && fragment[|fragment| - 1..] == AvatarClose
    then Some(fragment[|AvatarOpen|..|fragment| - 1])
    else None
  }

  /** The fragment is a well-formed image whose URL is the avatar, and the
      empty URL exactly when no avatar is known. */
  lemma AvatarFragmentUrl(avatar: Option<string>)
    ensures FragmentUrl(AvatarFragment(avatar)) == Some(OrEmpty(avatar))
    ensures FragmentUrl(AvatarFragment(avatar)) == Some("") <==> avatar == None || avatar == Some("")
  {
    var f := AvatarFragment(avatar);
    assert f[..|AvatarOpen|] == AvatarOpen;
    assert f[|f| - 1..] == AvatarClose;
    assert f[|AvatarOpen|..|f| - 1] == OrEmpty(avatar);
  }

  /** `{group_count}` is the member count written in decimal: digits only,
      no leading zero, and reading them back gives the count. */
  lemma GroupCountValue(s: Session, f: Fetched)
    ensures forall k | 0 <= k < |ValuesOf(s, f).groupCount| :: IsDigit(ValuesOf(s, f).groupCount[k])
    ensures DecimalValue(ValuesOf(s, f).groupCount) == MemberCount(f.members)
    ensures ValuesOf(s, f).groupCount[0] == '0' ==> ValuesOf(s, f).groupCount == "0"
  {
    DecimalRoundTrip(MemberCount(f.members));
  }

  // ----- the replace chain -----

  /** The placeholders, in the order the chain replaces them. */
  const Tokens: seq<string> :=
    ["{user}", "{group}", "{time}", "{avatar}", "{id}", "{group_id}", "{group_count}", "{hitokoto}"]

  /** The value substituted for each placeholder, by position in Tokens. */
  datatype Values = Values(
    user: string, group: string, time: string, avatar: string,
    id: string, groupId: string, groupCount: string, hitokoto: string)

  function Substitutions(vals: Values): (r: seq<string>)
    ensures |r| == |Tokens|
  {
    [vals.user, vals.group, vals.time, vals.avatar, vals.id, vals.groupId, vals.groupCount, vals.hitokoto]
  }

  /** The values `formatMessage` computes before the chain runs: the first
      non-empty name, the group name, the time, the avatar image (which
      reads back to the avatar), the coalesced ids or "", the member count
      in decimal (which reads back to the count) and the quote. */
  function ValuesOf(s: Session, f: Fetched): (r: Values)
    ensures r.user == FirstNonEmpty([s.authorNick, s.authorName, s.eventUserName, s.username])
    ensures r.group == GroupName(s, f) && r.time == f.time && r.hitokoto == f.quote
    ensures FragmentUrl(r.avatar) == Some(OrEmpty(Avatar(s)))
    ensures r.id == OrEmpty(UserId(s)) && r.groupId == OrEmpty(GuildId(s))
    ensures DecimalValue(r.groupCount) == MemberCount(f.members)
  {
    AvatarFragmentUrl(Avatar(s));
    DecimalRoundTrip(MemberCount(f.members));
    Values(
      user := FirstNonEmpty([s.authorNick, s.authorName, s.eventUserName, s.username]),
      group := GroupName(s, f),
      time := f.time,
      avatar := AvatarFragment(Avatar(s)),
      id := OrEmpty(UserId(s)),
      groupId := OrEmpty(GuildId(s)),
      groupCount := DecimalString(MemberCount(f.members)),
      hitokoto := f.quote)
  }

  /** A chain of `.replace(/token/g, value)` calls, applied left to right,
      each to the result of the one before. */
  function ReplaceEach(s: string, tokens: seq<string>, values: seq<string>): (r: string)
    requires |tokens| == |values|
    requires forall k | 0 <= k < |tokens| :: |tokens[k]| > 0
    ensures s == "" ==> r == ""
    decreases |tokens|
  {
    if |tokens| == 0 then s
    else ReplaceEach(ReplaceAll(s, tokens[0], values[0]), tokens[1..], values[1..])
  }

  /** Every placeholder is a brace token, and none is the `{at}` marker. */
  lemma TokensAreTokens()
    ensures forall k | 0 <= k < |Tokens| :: Token(Tokens[k]) && Tokens[k] != "{at}"
    ensures forall j, k | 0 <= j < k < |Tokens| :: Tokens[j] != Tokens[k]
  {
    assert Token("{user}") && Token("{group}") && Token("{time}") && Token("{avatar}");
    assert Token("{id}") && Token("{group_id}") && Token("{group_count}") && Token("{hitokoto}");
  }

  /** The template after the chain; the empty template stays empty. */
  function Render(template: string, vals: Values): (r: string)
    ensures template == "" ==> r == ""
  {
    TokensAreTokens();
    ReplaceEach(template, Tokens, Substitutions(vals))
  }

  /** A chain of token replacements leaves the token `m` where it is. */
  lemma {:induction false} ReplaceEachAroundToken(a: string, m: string, b: string, tokens: seq<string>, values: seq<string>)
    requires |tokens| == |values|
    requires Token(m)
    requires forall k | 0 <= k < |tokens| :: |tokens[k]| > 0 && Token(tokens[k]) && tokens[k] != m
    ensures ReplaceEach(a + m + b, tokens, values) == ReplaceEach(a, tokens, values) + m + ReplaceEach(b, tokens, values)
    decreases |tokens|
  {
    if |tokens| > 0 {
      ReplaceAllAroundToken(a, m, b, tokens[0], values[0]);
      ReplaceEachAroundToken(ReplaceAll(a, tokens[0], values[0]), m, ReplaceAll(b, tokens[0], values[0]), tokens[1..], values[1..]);
    }
  }

  /** `{at}` survives the chain: the text on each side of a marker is
      rendered on its own and the marker stays between them. */
  lemma RenderAroundMarker(a: string, b: string, vals: Values)
    ensures Render(a + "{at}" + b, vals) == Render(a, vals) + "{at}" + Render(b, vals)
  {
    TokensAreTokens();
    ReplaceEachAroundToken(a, "{at}", b, Tokens, Substitutions(vals));
  }

  /** Each piece rendered on its own. */
  function RenderPieces(pieces: seq<string>, vals: Values): (r: seq<string>)
    ensures |r| == |pieces|
  {
    if |pieces| == 0 then [] else [Render(pieces[0], vals)] + RenderPieces(pieces[1..], vals)
  }

  /** Rendering text joined at markers renders each piece and keeps every
      marker. */
  lemma {:induction false} RenderJoin(pieces: seq<string>, vals: Values)
    ensures Render(Join(pieces, "{at}"), vals) == Join(RenderPieces(pieces, vals), "{at}")
    decreases |pieces|
  {
    if |pieces| > 1 {
      RenderAroundMarker(pieces[0], Join(pieces[1..], "{at}"), vals);
      RenderJoin(pieces[1..], vals);
      assert RenderPieces(pieces, vals)[1..] == RenderPieces(pieces[1..], vals);
    }
  }

  /** The chain never touches a marker: the rendered template is the
      template's marker-separated pieces, each rendered, rejoined at the
      same markers. */
  lemma RenderKeepsMarkers(template: string, vals: Values)
    ensures Render(template, vals) == Join(RenderPieces(Split(template, "{at}"), vals), "{at}")
  {
    RenderJoin(Split(template, "{at}"), vals);
  }

  /** A chain whose tokens do not occur in `s` leaves it unchanged. */
  lemma {:induction false} ReplaceEachAbsent(s: string, tokens: seq<string>, values: seq<string>)
    requires |tokens| == |values|
    requires forall k | 0 <= k < |tokens| :: |tokens[k]| > 0 && !Contains(s, tokens[k])
    ensures ReplaceEach(s, tokens, values) == s
    decreases |tokens|
  {
    if |tokens| > 0 {
      ReplaceAllAbsent(s, tokens[0], values[0]);
      ReplaceEachAbsent(s, tokens[1..], values[1..]);
    }
  }

  /** A template without placeholders is sent as written. */
  lemma RenderWithoutTokens(template: string, vals: Values)
    requires forall k | 0 <= k < |Tokens| :: !Contains(template, Tokens[k])
    ensures Render(template, vals) == template
  {
    TokensAreTokens();
    ReplaceEachAbsent(template, Tokens, Substitutions(vals));
  }

  /** A token holds no other token. */
  lemma TokenHoldsNoOtherToken(m: string, t: string)
    requires Token(m) && Token(t) && m != t
    ensures !Contains(m, t)
  {
    assert "" + m + "" == m;
    forall p | 0 <= p <= |m| ensures !OccursAt(m, t, p) {
      if p < |m| {
        NoOccurrenceAcrossToken("", m, "", t, p);
      }
    }
  }

  /** A value that is itself one of the placeholders passes unchanged
      through the chain from position `from` on, when its own step comes
      before `from`. */
  lemma TokenSurvivesFrom(m: string, from: nat, vals: Values)
    requires from <= |Tokens|
    requires Token(m) && forall k | from <= k < |Tokens| :: Tokens[k] != m
    ensures ReplaceEach(m, Tokens[from..], Substitutions(vals)[from..]) == m
  {
    TokensAreTokens();
    forall k | from <= k < |Tokens| ensures !Contains(m, Tokens[k]) {
      TokenHoldsNoOtherToken(m, Tokens[k]);
    }
    ReplaceEachAbsent(m, Tokens[from..], Substitutions(vals)[from..]);
  }

  /** The first two steps of the chain, then the rest. */
  lemma RenderUnfold(template: string, vals: Values)
    ensures Render(template, vals) ==
      ReplaceEach(ReplaceAll(ReplaceAll(template, Tokens[0], vals.user), Tokens[1], vals.group),
                  Tokens[2..], Substitutions(vals)[2..])
  {
    TokensAreTokens();
    var subs := Substitutions(vals);
    assert Tokens[1..][1..] == Tokens[2..] && subs[1..][1..] == subs[2..];
  }

  /** A string that is exactly the pattern is replaced as a whole. */
  lemma ReplaceWhole(t: string, v: string)
    requires |t| > 0
    ensures ReplaceAll(t, t, v) == v
  {
    assert t + "" == t && v + "" == v;
    ReplaceAllFront(t, "", v);
  }

  /** The chain runs in source order, each step on the result of the one
      before: a user name spelling `{group}` is expanded by the later
      `{group}` step, while a group name spelling `{user}` is left as it is. */
  lemma ReplacementOrder(vals: Values)
    requires vals.user == "{group}" && vals.group == "{user}"
    ensures Render("{user}", vals) == "{user}"
    ensures Render("{group}", vals) == "{user}"
  {
    TokensAreTokens();
    var user, group := Tokens[0], Tokens[1];
    RenderUnfold(user, vals);
    RenderUnfold(group, vals);
    ReplaceWhole(user, group);
    ReplaceWhole(group, user);
    TokenHoldsNoOtherToken(group, user);
    ReplaceAllAbsent(group, user, group);
    TokenSurvivesFrom(user, 2, vals);
  }
}
