/**
 * The content dispatcher of a chat message (`MessageContent`): one content
 * fragment of a post is inspected for the keys `code`, `url`, `text` and
 * `mention`, in that order, and handed to the renderer of the first key that
 * is present. A fragment with none of them renders nothing.
 *
 * What the child renderers draw is not modelled; a `Rendering` only records
 * which renderer is chosen and what it is given.
 */
module MessageContent {
  import opened Options

  /** Profile data of a ship, as kept in the contacts store. */
  datatype Contact = Contact(nickname: string, avatar: Option<string>, color: string)

  /**
   * A content fragment: a record in which each of the four keys may or may not
   * be present. The code payload is handed on unchanged, so its shape is left
   * abstract as a string.
   */
  datatype Fragment = Fragment(
    code: Option<string>,
    url: Option<string>,
    text: Option<string>,
    mention: Option<string>)

  /** The renderer chosen for a fragment, with the props that depend on the fragment. */
  datatype Rendering =
    | CodeBlock(content: Fragment)                         // CodeContent gets the whole fragment
    | Remote(url: string)                                  // RemoteContent gets content.url
    | RichText(content: Fragment)                          // TextContent gets the whole fragment
    | Mention(ship: string, contact: Option<Contact>)      // Mention gets the ship and its contact
    | Nothing                                              // null

  /** The four keys, in the order the dispatcher tests them. */
  datatype Key = CodeKey | UrlKey | TextKey | MentionKey

  /** The value stored under `key`, if any. */
  function Field(content: Fragment, key: Key): Option<string>
  {
    match key
    case CodeKey => content.code
    case UrlKey => content.url
    case TextKey => content.text
    case MentionKey => content.mention
  }

  /** Whether `key` is present in `content` (JavaScript's `key in content`). */
  predicate Has(content: Fragment, key: Key)
  {
    Field(content, key).Some?
  }

  /** The renderer that belongs to each key. */
  function KeyOf(r: Rendering): Option<Key>
  {
    match r
    case CodeBlock(_) => Some(CodeKey)
    case Remote(_) => Some(UrlKey)
    case RichText(_) => Some(TextKey)
    case Mention(_, _) => Some(MentionKey)
    case Nothing => None
  }

  /** Keys in the dispatcher's order of precedence. */
  const Precedence: seq<Key> := [CodeKey, UrlKey, TextKey, MentionKey]

  /** The keys of `keys` that `content` has, in the order of `keys`. */
  function PresentKeys(content: Fragment, keys: seq<Key>): (ks: seq<Key>)
    ensures forall k :: k in ks <==> k in keys && Has(content, k)
    ensures |ks| <= |keys|
  {
    if keys == [] then []
    else if Has(content, keys[0]) then [keys[0]] + PresentKeys(content, keys[1..])
    else PresentKeys(content, keys[1..])
  }

  /**
   * `MessageContent`: the first present key of `code`, `url`, `text`,
   * `mention` decides the renderer; a mention is shown with the contact the
   * contacts store holds for that ship, if any.
   */
  function Dispatch(content: Fragment, contacts: map<string, Contact>): (r: Rendering)
    ensures r.CodeBlock? <==> content.code.Some?
    ensures r.Remote? <==> content.code.None? && content.url.Some?
    ensures r.RichText? <==> content.code.None? && content.url.None? && content.text.Some?
    ensures r.Mention? <==>
      content.code.None? && content.url.None? && content.text.None? && content.mention.Some?
    ensures r.Nothing? <==>
      content.code.None? && content.url.None? && content.text.None? && content.mention.None?
    ensures r.CodeBlock? || r.RichText? ==> r.content == content
    ensures r.Remote? ==> r.url == content.url.value
    ensures r.Mention? ==> r.ship == content.mention.value
    ensures r.Mention? ==> (r.contact.Some? <==> r.ship in contacts)
    ensures r.Mention? && r.contact.Some? ==> r.contact.value == contacts[r.ship]
  {
    if content.code.Some? then CodeBlock(content)
    else if content.url.Some? then Remote(content.url.value)
    else if content.text.Some? then RichText(content)
    else if content.mention.Some? then
      var ship := content.mention.value;
      Mention(ship, if ship in contacts then Some(contacts[ship]) else None)
    else Nothing
  }

  /**
   * The dispatcher agrees with the reference rule "the renderer of the first
   * present key in the order code, url, text, mention; nothing if none".
   */
  lemma DispatchPicksFirstPresentKey(content: Fragment, contacts: map<string, Contact>)
    ensures var present := PresentKeys(content, Precedence);
      KeyOf(Dispatch(content, contacts)) == if present == [] then None else Some(present[0])
  {
    var tail3 := PresentKeys(content, [MentionKey]);
    assert [MentionKey][1..] == [];
    var tail2 := PresentKeys(content, [TextKey, MentionKey]);
    assert [TextKey, MentionKey][1..] == [MentionKey];
    assert tail2 == if Has(content, TextKey) then [TextKey] + tail3 else tail3;
    var tail1 := PresentKeys(content, [UrlKey, TextKey, MentionKey]);
    assert [UrlKey, TextKey, MentionKey][1..] == [TextKey, MentionKey];
    assert tail1 == if Has(content, UrlKey) then [UrlKey] + tail2 else tail2;
    assert Precedence[1..] == [UrlKey, TextKey, MentionKey];
    assert PresentKeys(content, Precedence) == if Has(content, CodeKey) then [CodeKey] + tail1 else tail1;
  }

  /** A well-formed fragment (exactly one key present) renders with that key's renderer. */
  lemma SingleKeyFragment(content: Fragment, contacts: map<string, Contact>, key: Key)
    requires Has(content, key)
    requires forall k :: k != key ==> !Has(content, k)
    ensures KeyOf(Dispatch(content, contacts)) == Some(key)
  {
    assert forall k :: Has(content, k) ==> k == key;
    match key
    case CodeKey =>
    case UrlKey => assert !Has(content, CodeKey);
    case TextKey => assert !Has(content, CodeKey) && !Has(content, UrlKey);
    case MentionKey =>
      assert !Has(content, CodeKey) && !Has(content, UrlKey) && !Has(content, TextKey);
  }

  /**
   * Only the keys up to the first present one matter: two fragments that agree
   * on the keys of precedence up to `i`, the `i`-th of which is present, go
   * to the same renderer, whatever keys of lower precedence they carry.
   */
  lemma LowerKeysIgnored(a: Fragment, b: Fragment, contacts: map<string, Contact>, i: nat)
    requires i < |Precedence| && Has(a, Precedence[i])
    requires forall j :: 0 <= j <= i ==> Field(a, Precedence[j]) == Field(b, Precedence[j])
    ensures KeyOf(Dispatch(a, contacts)) == KeyOf(Dispatch(b, contacts))
  {
    assert Field(a, Precedence[0]) == Field(b, Precedence[0]);
    if i >= 1 { assert Field(a, Precedence[1]) == Field(b, Precedence[1]); }
    if i >= 2 { assert Field(a, Precedence[2]) == Field(b, Precedence[2]); }
    if i >= 3 { assert Field(a, Precedence[3]) == Field(b, Precedence[3]); }
  }

  /**
   * `msg.contents.map(...)`: every fragment of a post is dispatched, in
   * document order, one rendering per fragment.
   */
  function RenderContents(contents: seq<Fragment>, contacts: map<string, Contact>): (rs: seq<Rendering>)
    ensures |rs| == |contents|
    ensures forall i :: 0 <= i < |contents| ==> rs[i] == Dispatch(contents[i], contacts)
  {
    if contents == [] then []
    else [Dispatch(contents[0], contacts)] + RenderContents(contents[1..], contacts)
  }
}
