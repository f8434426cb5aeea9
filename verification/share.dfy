/** The share dialog: the poll's public link, the iframe snippet that embeds
    it, and the social-network links opened in a popup. */
module Share {
  import opened Wrappers
  import opened Uri
  import opened Query

  /** `window.location.origin`, or the empty string when there is no window
      (rendering on the server). */
  function Origin(window: Option<string>): string {
    window.GetOr("")
  }

  /** The public link of a poll; without a window it is the bare path. */
  function ShareUrl(window: Option<string>, pollId: string): (u: string)
    ensures window.None? ==> u == "/poll/" + pollId
    ensures window.Some? ==> u == window.value + "/poll/" + pollId
  {
    Origin(window) + "/poll/" + pollId
  }

  /** Different polls have different public links. */
  lemma ShareUrlInjective(window: Option<string>, id1: string, id2: string)
    requires id1 != id2
    ensures ShareUrl(window, id1) != ShareUrl(window, id2)
  {
    var p := Origin(window) + "/poll/";
    assert ShareUrl(window, id1)[|p|..] == id1;
    assert ShareUrl(window, id2)[|p|..] == id2;
  }

  /** The embed page the iframe points at. */
  function EmbedUrl(window: Option<string>, pollId: string): string {
    Origin(window) + "/embed/" + pollId
  }

  /** The snippet's fixed attributes after the address: full width, 500
      pixels high, no border. */
  const EmbedAttributes: string := " width=\"100%\"" + " height=\"500\"" + " frameborder=\"0\"" + "></iframe>"

  /** The iframe snippet, `<iframe src="ADDRESS" width="100%" height="500"
      frameborder="0"></iframe>`: the opening tag up to the `src` quote, the
      embed page's address, the closing quote and the fixed attributes. */
  function EmbedCode(window: Option<string>, pollId: string): (code: string)
    ensures |code| == 13 + |Origin(window)| + 7 + |pollId| + 1 + |EmbedAttributes|
    ensures code[..13] == "<iframe src=\""
    ensures code[13..13 + |EmbedUrl(window, pollId)|] == Origin(window) + "/embed/" + pollId
    ensures code[13 + |EmbedUrl(window, pollId)|..] == "\"" + " width=\"100%\"" + " height=\"500\"" + " frameborder=\"0\"" + "></iframe>"
  {
    var u := EmbedUrl(window, pollId);
    var code := "<iframe src=\"" + u + "\"" + EmbedAttributes;
    assert code == "<iframe src=\"" + (u + ("\"" + EmbedAttributes));
    code
  }

  /** Read back as an HTML tag: as long as neither the origin nor the poll
      id contains a double quote, the first quoted attribute value of the
      snippet is exactly the embed page's address, and what follows does not
      depend on the poll. */
  lemma EmbedCodeSource(window: Option<string>, pollId: string)
    requires '"' !in Origin(window) && '"' !in pollId
    ensures Split(EmbedCode(window, pollId), '"') == ["<iframe src=", EmbedUrl(window, pollId)] + Split(EmbedAttributes, '"')
  {
    var src := EmbedUrl(window, pollId);
    assert '"' !in src;
    assert '"' !in "<iframe src=";
    EmbedCodeShape(window, pollId);
    SplitQuoted("<iframe src=", src, EmbedAttributes);
  }

  lemma EmbedCodeShape(window: Option<string>, pollId: string)
    ensures EmbedCode(window, pollId) == "<iframe src=" + ['"'] + (EmbedUrl(window, pollId) + ['"'] + EmbedAttributes)
  {
    assert "<iframe src=\"" == "<iframe src=" + ['"'];
  }

  lemma SplitQuoted(a: string, v: string, rest: string)
    requires '"' !in a && '"' !in v
    ensures Split(a + ['"'] + (v + ['"'] + rest), '"') == [a, v] + Split(rest, '"')
  {
    SplitAfter(a, '"', v + ['"'] + rest);
    SplitAfter(v, '"', rest);
  }

  /** The text offered with the link. */
  function Message(pollTitle: string): string {
    "Vote on this poll: " + pollTitle
  }

  predicate IsKnownPlatform(platform: string) {
    platform == "twitter" || platform == "linkedin" || platform == "facebook" || platform == "whatsapp"
  }

  /** `key=value`. */
  function Field(key: string, value: string): string {
    key + "=" + value
  }

  /** `base?query`. */
  function WithQuery(base: string, query: string): string {
    base + "?" + query
  }

  /** The pages the four links point at, written in pieces of host and
      path. */
  const Https: string := "https://"
  const TwitterBase: string := Https + "twitter.com" + "/intent/tweet"
  const LinkedInBase: string := Https + "www.linkedin.com" + "/sharing" + "/share-offsite/"
  const FacebookBase: string := Https + "www.facebook.com" + "/sharer" + "/sharer.php"
  const WhatsAppBase: string := Https + "wa.me/"

  /** The link for one platform, carrying the encoded message and the
      encoded share URL (Twitter: `text` and `url`; LinkedIn: `url`;
      Facebook: `u`; WhatsApp: `text` holding the message, `%20` and the
      URL); the empty string for any other platform name. */
  function SocialLink(platform: string, window: Option<string>, pollId: string, pollTitle: string): (link: string)
    ensures link == [] <==> !IsKnownPlatform(platform)
  {
    var text := Encode(Message(pollTitle));
    var url := Encode(ShareUrl(window, pollId));
    match platform
    case "twitter" => WithQuery(TwitterBase, Field("text", text) + "&" + Field("url", url))
    case "linkedin" => WithQuery(LinkedInBase, Field("url", url))
    case "facebook" => WithQuery(FacebookBase, Field("u", url))
    case "whatsapp" => WithQuery(WhatsAppBase, Field("text", text + "%20" + url))
    case _ => ""
  }

  /** What a social button does. */
  datatype Effect = OpenPopup(url: string, target: string, features: string) | NoEffect

  /** A social button opens its link in a new 600 by 400 window; an unknown
      platform yields an empty link and opens nothing. */
  function ShareSocial(platform: string, window: Option<string>, pollId: string, pollTitle: string): (e: Effect)
    ensures e.NoEffect? <==> !IsKnownPlatform(platform)
    ensures e.OpenPopup? ==> e.url == SocialLink(platform, window, pollId, pollTitle)
    ensures e.OpenPopup? ==> e.target == "_blank" && e.features == "width=600,height=400"
  {
    var link := SocialLink(platform, window, pollId, pollTitle);
    if link != [] then OpenPopup(link, "_blank", "width=600,height=400") else NoEffect
  }

  // ---------------------------------------------------------------------
  // Reading the links back

  /** The decoded value of a query parameter, as the receiving site reads it. */
  function ReadParam(url: string, key: string): Option<string> {
    match Param(url, key)
    case Some(v) => Decode(v)
    case None => None
  }

  /** None of the four pages' addresses holds a `?`. */
  lemma BasesHaveNoQuery()
    ensures '?' !in TwitterBase && '?' !in LinkedInBase && '?' !in FacebookBase && '?' !in WhatsAppBase
  {
    assert '?' !in Https;
    assert '?' !in "twitter.com" && '?' !in "/intent/tweet";
    assert '?' !in "www.linkedin.com" && '?' !in "/sharing" && '?' !in "/share-offsite/";
    assert '?' !in "www.facebook.com" && '?' !in "/sharer" && '?' !in "/sharer.php";
  }

  /** Whatever precedes the first `?` of `base?query` is `base`, when the
      base has no `?` of its own. */
  lemma PageOf(base: string, query: string)
    requires '?' !in base
    ensures Split(WithQuery(base, query), '?')[0] == base
  {
    assert WithQuery(base, query) == base + ['?'] + query;
    SplitAfter(base, '?', query);
  }

  /** The page each link opens, the part before its query: Twitter's tweet
      intent, LinkedIn's share-offsite page, Facebook's sharer and
      WhatsApp's wa.me. */
  lemma SocialLinkPages(window: Option<string>, pollId: string, pollTitle: string)
    ensures Split(SocialLink("twitter", window, pollId, pollTitle), '?')[0] == "https://" + "twitter.com" + "/intent/tweet"
    ensures Split(SocialLink("linkedin", window, pollId, pollTitle), '?')[0] == "https://" + "www.linkedin.com" + "/sharing" + "/share-offsite/"
    ensures Split(SocialLink("facebook", window, pollId, pollTitle), '?')[0] == "https://" + "www.facebook.com" + "/sharer" + "/sharer.php"
    ensures Split(SocialLink("whatsapp", window, pollId, pollTitle), '?')[0] == "https://" + "wa.me/"
  {
    BasesHaveNoQuery();
    TwitterPage(window, pollId, pollTitle);
    LinkedInPage(window, pollId, pollTitle);
    FacebookPage(window, pollId, pollTitle);
    WhatsAppPage(window, pollId, pollTitle);
  }

  lemma TwitterPage(window: Option<string>, pollId: string, pollTitle: string)
    requires '?' !in TwitterBase
    ensures Split(SocialLink("twitter", window, pollId, pollTitle), '?')[0] == TwitterBase
  {
    var text, url := Encode(Message(pollTitle)), Encode(ShareUrl(window, pollId));
    PageOf(TwitterBase, Field("text", text) + "&" + Field("url", url));
  }

  lemma LinkedInPage(window: Option<string>, pollId: string, pollTitle: string)
    requires '?' !in LinkedInBase
    ensures Split(SocialLink("linkedin", window, pollId, pollTitle), '?')[0] == LinkedInBase
  {
    PageOf(LinkedInBase, Field("url", Encode(ShareUrl(window, pollId))));
  }

  lemma FacebookPage(window: Option<string>, pollId: string, pollTitle: string)
    requires '?' !in FacebookBase
    ensures Split(SocialLink("facebook", window, pollId, pollTitle), '?')[0] == FacebookBase
  {
    PageOf(FacebookBase, Field("u", Encode(ShareUrl(window, pollId))));
  }

  lemma WhatsAppPage(window: Option<string>, pollId: string, pollTitle: string)
    requires '?' !in WhatsAppBase
    ensures Split(SocialLink("whatsapp", window, pollId, pollTitle), '?')[0] == WhatsAppBase
  {
    var text, url := Encode(Message(pollTitle)), Encode(ShareUrl(window, pollId));
    PageOf(WhatsAppBase, Field("text", text + "%20" + url));
  }

  /** An encoded value holds no `?`, `&` or `=`. */
  lemma EncodedIsPlain(value: string)
    ensures '?' !in Encode(value) && '&' !in Encode(value) && '=' !in Encode(value)
  {
    EncodeAvoids(value, '?');
    EncodeAvoids(value, '&');
    EncodeAvoids(value, '=');
  }

  lemma LookupFirst(key: string, v: string, rest: seq<string>)
    ensures Lookup([Field(key, v)] + rest, key) == Some(v)
  {
    assert Field(key, v)[|key| + 1..] == v;
  }

  /** A link `base?key=` followed by an encoded value reads back the value. */
  lemma ReadOnlyParam(base: string, key: string, value: string)
    requires '?' !in base && '&' !in key && '?' !in key
    ensures ReadParam(WithQuery(base, Field(key, Encode(value))), key) == Some(value)
  {
    EncodedIsPlain(value);
    OneField(base, Field(key, Encode(value)));
    LookupFirst(key, Encode(value), []);
    DecodeEncode(value);
  }

  /** The fields of `base?f1&f2`, for fields without `?` or `&`. */
  lemma TwoFieldQuery(base: string, f1: string, f2: string)
    requires '?' !in base && '?' !in f1 && '?' !in f2 && '&' !in f1 && '&' !in f2
    ensures Split(QueryOf(WithQuery(base, f1 + "&" + f2)), '&') == [f1, f2]
  {
    assert WithQuery(base, f1 + "&" + f2) == base + ['?'] + (f1 + ['&'] + f2);
    TwoFields(base, f1, f2);
  }

  /** In `base?k1=e1&k2=e2`, with plain values and keys told apart by their
      first letter, the parameters are `e1` and `e2`. */
  lemma TwoParams(base: string, k1: string, e1: string, k2: string, e2: string)
    requires '?' !in base && '&' !in k1 && '?' !in k1 && '&' !in k2 && '?' !in k2
    requires '?' !in e1 && '&' !in e1 && '?' !in e2 && '&' !in e2
    requires k1 != [] && k2 != [] && k1[0] != k2[0]
    ensures Param(WithQuery(base, Field(k1, e1) + "&" + Field(k2, e2)), k1) == Some(e1)
    ensures Param(WithQuery(base, Field(k1, e1) + "&" + Field(k2, e2)), k2) == Some(e2)
  {
    var f1, f2 := Field(k1, e1), Field(k2, e2);
    TwoFieldQuery(base, f1, f2);
    LookupFirst(k1, e1, [f2]);
    LookupFirst(k2, e2, []);
    assert !(k2 + "=" <= f1) by { assert f1[0] == k1[0]; }
    assert [f1, f2][1..] == [f2] + [];
    assert Lookup([f1, f2], k2) == Lookup([f2] + [], k2);
  }

  /** A link `base?k1=ENC(v1)&k2=ENC(v2)` reads back both values. */
  lemma ReadTwoParams(base: string, k1: string, v1: string, k2: string, v2: string)
    requires '?' !in base && '&' !in k1 && '?' !in k1 && '&' !in k2 && '?' !in k2
    requires k1 != [] && k2 != [] && k1[0] != k2[0]
    ensures ReadParam(WithQuery(base, Field(k1, Encode(v1)) + "&" + Field(k2, Encode(v2))), k1) == Some(v1)
    ensures ReadParam(WithQuery(base, Field(k1, Encode(v1)) + "&" + Field(k2, Encode(v2))), k2) == Some(v2)
  {
    EncodedIsPlain(v1);
    EncodedIsPlain(v2);
    TwoParams(base, k1, Encode(v1), k2, Encode(v2));
    DecodeEncode(v1);
    DecodeEncode(v2);
  }

  /** The Twitter link's `text` parameter is the message naming the poll and
      its `url` parameter is the share URL. */
  lemma TwitterCarriesTextAndUrl(window: Option<string>, pollId: string, pollTitle: string)
    ensures ReadParam(SocialLink("twitter", window, pollId, pollTitle), "text") == Some(Message(pollTitle))
    ensures ReadParam(SocialLink("twitter", window, pollId, pollTitle), "url") == Some(ShareUrl(window, pollId))
  {
    BasesHaveNoQuery();
    ReadTwoParams(TwitterBase, "text", Message(pollTitle), "url", ShareUrl(window, pollId));
  }

  /** The LinkedIn link's `url` parameter is the share URL. */
  lemma LinkedInCarriesUrl(window: Option<string>, pollId: string, pollTitle: string)
    ensures ReadParam(SocialLink("linkedin", window, pollId, pollTitle), "url") == Some(ShareUrl(window, pollId))
  {
    BasesHaveNoQuery();
    ReadOnlyParam(LinkedInBase, "url", ShareUrl(window, pollId));
  }

  /** The Facebook link's `u` parameter is the share URL. */
  lemma FacebookCarriesUrl(window: Option<string>, pollId: string, pollTitle: string)
    ensures ReadParam(SocialLink("facebook", window, pollId, pollTitle), "u") == Some(ShareUrl(window, pollId))
  {
    BasesHaveNoQuery();
    ReadOnlyParam(FacebookBase, "u", ShareUrl(window, pollId));
  }

  /** The WhatsApp link's single `text` parameter is the message, a space,
      and the share URL. */
  lemma WhatsAppCarriesMessageAndUrl(window: Option<string>, pollId: string, pollTitle: string)
    ensures ReadParam(SocialLink("whatsapp", window, pollId, pollTitle), "text") == Some(Message(pollTitle) + " " + ShareUrl(window, pollId))
  {
    var m, u := Message(pollTitle), ShareUrl(window, pollId);
    EncodeAppend(m, " ");
    EncodeAppend(m + " ", u);
    EncodeSpace();
    assert Encode(m + " " + u) == Encode(m) + "%20" + Encode(u);
    BasesHaveNoQuery();
    ReadOnlyParam(WhatsAppBase, "text", m + " " + u);
  }

  /** The LinkedIn and Facebook links do not depend on the poll's title. */
  lemma UrlOnlyLinksIgnoreTitle(platform: string, window: Option<string>, pollId: string, title1: string, title2: string)
    requires platform == "linkedin" || platform == "facebook"
    ensures SocialLink(platform, window, pollId, title1) == SocialLink(platform, window, pollId, title2)
  {
  }

  /** Links for two different polls differ on every platform: the poll is
      recoverable from its link. */
  lemma SocialLinkDistinguishesPolls(platform: string, window: Option<string>, id1: string, id2: string, title: string)
    requires IsKnownPlatform(platform) && id1 != id2
    ensures SocialLink(platform, window, id1, title) != SocialLink(platform, window, id2, title)
  {
    ShareUrlInjective(window, id1, id2);
    if platform == "twitter" {
      TwitterCarriesTextAndUrl(window, id1, title);
      TwitterCarriesTextAndUrl(window, id2, title);
    } else if platform == "linkedin" {
      LinkedInCarriesUrl(window, id1, title);
      LinkedInCarriesUrl(window, id2, title);
    } else if platform == "facebook" {
      FacebookCarriesUrl(window, id1, title);
      FacebookCarriesUrl(window, id2, title);
    } else {
      WhatsAppDistinguishesPolls(window, id1, id2, title);
    }
  }

  lemma WhatsAppDistinguishesPolls(window: Option<string>, id1: string, id2: string, title: string)
    requires id1 != id2
    ensures SocialLink("whatsapp", window, id1, title) != SocialLink("whatsapp", window, id2, title)
  {
    var m := Message(title) + " " + Origin(window) + "/poll/";
    var v1, v2 := Message(title) + " " + ShareUrl(window, id1), Message(title) + " " + ShareUrl(window, id2);
    assert v1 == m + id1 && v2 == m + id2;
    PrefixCancels(m, id1, id2);
    WhatsAppCarriesMessageAndUrl(window, id1, title);
    WhatsAppCarriesMessageAndUrl(window, id2, title);
    DifferentValuesDifferentLinks(SocialLink("whatsapp", window, id1, title), SocialLink("whatsapp", window, id2, title), "text", v1, v2);
  }

  lemma PrefixCancels(m: string, a: string, b: string)
    requires a != b
    ensures m + a != m + b
  {
    assert (m + a)[|m|..] == a;
    assert (m + b)[|m|..] == b;
  }

  lemma DifferentValuesDifferentLinks(l1: string, l2: string, key: string, v1: string, v2: string)
    requires ReadParam(l1, key) == Some(v1) && ReadParam(l2, key) == Some(v2) && v1 != v2
    ensures l1 != l2
  {
  }
}
