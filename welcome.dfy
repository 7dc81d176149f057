/**
  Choosing the template for an event (`selectMessage`) and turning it into
  the message that is sent (`formatMessage`), in src/index.ts.
 */
module Welcome {
  import opened Nullable
  import opened Strings
  import opened Placeholders
  import opened Elements

  /** `Math.floor(random * n)` for `Math.random()`'s `random` in [0, 1). */
  function RandomIndex(random: real, n: nat): (i: nat)
    requires 0.0 <= random < 1.0 && n > 0
    ensures i < n
  {
    var i := (random * n as real).Floor;
    assert i as real <= random * n as real < n as real;
    i
  }

  /** Every index is drawn from an interval of the same width `1/n`: the
      `i`-th template is picked exactly when `random` lies in
      `[i/n, (i+1)/n)`. */
  lemma RandomIndexInterval(random: real, n: nat, i: nat)
    requires 0.0 <= random < 1.0 && n > 0
    ensures RandomIndex(random, n) == i <==>
      i as real / n as real <= random < (i + 1) as real / n as real
  {
    var x := random * n as real;
    var m := n as real;
    assert x.Floor == i <==> i as real <= x < (i + 1) as real;
    assert i as real <= x <==> i as real / m <= random by {
      assert i as real / m * m == i as real;
    }
    assert x < (i + 1) as real <==> random < (i + 1) as real / m by {
      assert (i + 1) as real / m * m == (i + 1) as real;
    }
  }

  /** `selectMessage`, once the selector has been resolved to `index`: no
      template when there are none; a random one for `0`; the `index`-th
      (counting from 1) when there is one; the first otherwise. */
  function SelectMessage(messages: seq<string>, index: int, random: real): (r: Option<string>)
    requires 0.0 <= random < 1.0
    ensures r == None <==> |messages| == 0
    ensures 1 <= index <= |messages| ==> r == Some(messages[index - 1])
    ensures |messages| > 0 && index != 0 && !(1 <= index <= |messages|) ==> r == Some(messages[0])
    ensures |messages| > 0 && index == 0 ==> r == Some(messages[RandomIndex(random, |messages|)])
  {
    if |messages| == 0 then None
    else if index == 0 then Some(messages[RandomIndex(random, |messages|)])
    else if 1 <= index <= |messages| then Some(messages[index - 1])
    else Some(messages[0])
  }

  /** Whatever the selector, a chosen template is one of the configured ones. */
  lemma SelectedIsConfigured(messages: seq<string>, index: int, random: real)
    requires 0.0 <= random < 1.0
    ensures SelectMessage(messages, index, random).Some? ==>
      SelectMessage(messages, index, random).value in messages
  {
  }

  /** `formatMessage`: compute the values, render the placeholders, hand the text to the
      markdown converter `transform`, and run every top-level element
      through `transformElements` into the final list. When the converter
      gives a well-formed tree, no text in the message holds `{at}` any more. */
  method FormatMessage(template: string, s: Session, f: Fetched, transform: string -> seq<Node>)
    returns (r: seq<Node>)
    ensures r == RewriteAll(transform(Render(template, ValuesOf(s, f))), s.userId)
    ensures AllWellFormed(transform(Render(template, ValuesOf(s, f)))) ==> AllMarkerFree(r) && AllWellFormed(r)
  {
    var user := GetNotEmptyText([s.authorNick, s.authorName, s.eventUserName, s.username]);
    var vals := Values(
      user, GroupName(s, f), f.time, AvatarFragment(Avatar(s)), OrEmpty(UserId(s)),
      OrEmpty(GuildId(s)), DecimalString(MemberCount(f.members)), f.quote);
    assert vals == ValuesOf(s, f);
    var markdownText := Render(template, vals);
    var transformed := transform(markdownText);
    var uid := s.userId;
    var finalElements := new NodeList();
    for i := 0 to |transformed|
      invariant finalElements.items == RewriteAll(transformed[..i], uid)
    {
      TransformElements(transformed[i], uid, finalElements);
      RewriteAllPrefix(transformed, i, uid);
    }
    assert transformed[..|transformed|] == transformed;
    r := finalElements.items;
    if AllWellFormed(transformed) {
      RewriteAllMarkerFree(transformed, uid);
    }
  }
}
