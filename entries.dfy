/** `convertEntriesToLeaflet` of src/lib/convert.ts: WhiteWind blog entries to Leaflet
    document records, one per entry, in order. */
module Entries {
  import opened Wrappers
  import opened JsString
  import opened Leaflet
  import opened LineParser

  /** The `value` record of an exported WhiteWind entry. A field absent from the JSON is
      `None`. */
  datatype EntryValue = EntryValue(
    content: Option<string>,
    title: Option<string>,
    subtitle: Option<string>,
    createdAt: Option<string>)

  /** An entry as the converter reads it: the fields of its `value` record, or the same
      fields (plus `body` and `name`) on the entry itself. */
  datatype Entry = Entry(
    value: Option<EntryValue>,
    content: Option<string>,
    body: Option<string>,
    title: Option<string>,
    name: Option<string>,
    subtitle: Option<string>,
    createdAt: Option<string>)

  const MissingContent: string := "One or more WhiteWind entries is missing a \"content\" field"
  const UntitledPost: string := "Untitled Post"

  /** `a || b || ...` where only the truthiness of the result is used further: the first
      truthy operand, or `None` when every one is falsy. */
  function FirstTruthy(os: seq<Option<string>>): (r: Option<string>)
    ensures r.Some? <==> exists k :: 0 <= k < |os| && Truthy(os[k])
    ensures r.Some? ==> exists k :: 0 <= k < |os| && Truthy(os[k]) && r == os[k]
                                    && forall j :: 0 <= j < k ==> !Truthy(os[j])
    ensures r.Some? ==> r.value != ""
  {
    if os == [] then None
    else if Truthy(os[0]) then os[0]
    else
      var rest := FirstTruthy(os[1..]);
      assert forall k :: 1 <= k < |os| ==> os[k] == os[1..][k - 1];
      if rest.Some? then
        ghost var k :| 0 <= k < |os[1..]| && Truthy(os[1..][k]) && rest == os[1..][k]
                     && forall j :: 0 <= j < k ==> !Truthy(os[1..][j]);
        assert Truthy(os[k + 1]) && rest == os[k + 1];
        rest
      else
        rest
  }

  /** `entry.value?.content`, `entry.value?.title`, `entry.value?.subtitle` and
      `entry.value?.createdAt`. */
  function ValueContent(entry: Entry): Option<string> {
    if entry.value.Some? then entry.value.value.content else None
  }

  function ValueTitle(entry: Entry): Option<string> {
    if entry.value.Some? then entry.value.value.title else None
  }

  function ValueSubtitle(entry: Entry): Option<string> {
    if entry.value.Some? then entry.value.value.subtitle else None
  }

  function ValueCreatedAt(entry: Entry): Option<string> {
    if entry.value.Some? then entry.value.value.createdAt else None
  }

  /** The entry has content in one of the three places the converter looks. */
  predicate HasContent(entry: Entry) {
    Truthy(ValueContent(entry)) || Truthy(entry.content) || Truthy(entry.body)
  }

  /** `entry.value?.content || entry.content || entry.body || ''`. */
  function ContentOf(entry: Entry): (content: string)
    ensures content != "" <==> HasContent(entry)
    ensures Truthy(ValueContent(entry)) ==> content == ValueContent(entry).value
    ensures !Truthy(ValueContent(entry)) && Truthy(entry.content) ==> content == entry.content.value
    ensures !Truthy(ValueContent(entry)) && !Truthy(entry.content) && Truthy(entry.body) ==> content == entry.body.value
  {
    var os := [ValueContent(entry), entry.content, entry.body];
    assert os[0] == ValueContent(entry) && os[1] == entry.content && os[2] == entry.body;
    FirstTruthy(os).GetOr("")
  }

  /** `entry.value?.title || entry.title || entry.name`, then `|| 'Untitled Post'`. */
  function TitleOf(entry: Entry): (title: string)
    ensures title != ""
    ensures Truthy(ValueTitle(entry)) ==> title == ValueTitle(entry).value
    ensures !Truthy(ValueTitle(entry)) && Truthy(entry.title) ==> title == entry.title.value
    ensures !Truthy(ValueTitle(entry)) && !Truthy(entry.title) && Truthy(entry.name) ==> title == entry.name.value
    ensures !Truthy(ValueTitle(entry)) && !Truthy(entry.title) && !Truthy(entry.name) ==> title == UntitledPost
  {
    var os := [ValueTitle(entry), entry.title, entry.name];
    assert os[0] == ValueTitle(entry) && os[1] == entry.title && os[2] == entry.name;
    FirstTruthy(os).GetOr(UntitledPost)
  }

  /** `entry.value?.subtitle || entry.subtitle`, absent when neither is truthy. */
  function SubtitleOf(entry: Entry): (subtitle: Option<string>)
    ensures subtitle.Some? <==> Truthy(ValueSubtitle(entry)) || Truthy(entry.subtitle)
    ensures Truthy(ValueSubtitle(entry)) ==> subtitle == ValueSubtitle(entry)
    ensures !Truthy(ValueSubtitle(entry)) && Truthy(entry.subtitle) ==> subtitle == entry.subtitle
  {
    var os := [ValueSubtitle(entry), entry.subtitle];
    assert os[0] == ValueSubtitle(entry) && os[1] == entry.subtitle;
    FirstTruthy(os)
  }

  /** `entry.value?.createdAt || entry.createdAt`, absent when neither is truthy. */
  function CreatedAtOf(entry: Entry): (createdAt: Option<string>)
    ensures createdAt.Some? <==> Truthy(ValueCreatedAt(entry)) || Truthy(entry.createdAt)
    ensures Truthy(ValueCreatedAt(entry)) ==> createdAt == ValueCreatedAt(entry)
    ensures !Truthy(ValueCreatedAt(entry)) && Truthy(entry.createdAt) ==> createdAt == entry.createdAt
  {
    var os := [ValueCreatedAt(entry), entry.createdAt];
    assert os[0] == ValueCreatedAt(entry) && os[1] == entry.createdAt;
    FirstTruthy(os)
  }

  /** `at://<authorDid>/pub.leaflet.publication/<rkey>`. */
  function PublicationUri(authorDid: string, publicationRkey: string): string {
    "at://" + authorDid + "/pub.leaflet.publication/" + publicationRkey
  }

  /** The callback of `entries.map`: the document record of one entry, or the error it
      throws when the entry has no content. */
  function EntryToDocument(publicationRkey: string, entry: Entry, authorDid: string,
                           decodeUriComponent: string -> string): (r: Result<Document, string>)
    ensures r.Failure? <==> !HasContent(entry)
    ensures r.Failure? ==> r.error == MissingContent
    ensures r.Success? ==>
              && r.value.title == TitleOf(entry)
              && r.value.title != ""
              && r.value.description == SubtitleOf(entry)
              && r.value.publishedAt == CreatedAtOf(entry)
              && r.value.author == authorDid
              && r.value.publication == PublicationUri(authorDid, publicationRkey)
              && (r.value.description.Some? <==> Truthy(ValueSubtitle(entry)) || Truthy(entry.subtitle))
              && (r.value.publishedAt.Some? <==> Truthy(ValueCreatedAt(entry)) || Truthy(entry.createdAt))
              && |r.value.pages| == 1
              && r.value.pages[0].blocks == MarkdownToBlocks(Library, ContentOf(entry), authorDid, decodeUriComponent)
              && r.value.pages[0].blocks != []
  {
    var content := ContentOf(entry);
    if content == "" then Failure(MissingContent)
    else
      var blocks := MarkdownToBlocks(Library, content, authorDid, decodeUriComponent);
      Success(Document(TitleOf(entry), SubtitleOf(entry), authorDid,
                       PublicationUri(authorDid, publicationRkey), CreatedAtOf(entry),
                       [LinearDocument(blocks)]))
  }

  /** `xs.map(f)` where `f` may throw: the first error stops the map. */
  function MapOrThrow<A, B, E>(xs: seq<A>, f: A -> Result<B, E>): (r: Result<seq<B>, E>)
    ensures r.Success? <==> forall k :: 0 <= k < |xs| ==> f(xs[k]).Success?
    ensures r.Failure? ==> exists k :: 0 <= k < |xs| && f(xs[k]) == Failure(r.error)
                                       && forall j :: 0 <= j < k ==> f(xs[j]).Success?
    ensures r.Success? ==> |r.value| == |xs| && forall k :: 0 <= k < |xs| ==> f(xs[k]) == Success(r.value[k])
  {
    if xs == [] then Success([])
    else
      var first := f(xs[0]);
      if first.Failure? then Failure(first.error)
      else
        var rest := MapOrThrow(xs[1..], f);
        assert forall k :: 1 <= k < |xs| ==> xs[k] == xs[1..][k - 1];
        if rest.Failure? then
          ghost var k :| 0 <= k < |xs[1..]| && f(xs[1..][k]) == Failure(rest.error)
                         && forall j :: 0 <= j < k ==> f(xs[1..][j]).Success?;
          assert f(xs[k + 1]) == Failure(rest.error);
          assert forall j :: 1 <= j < k + 1 ==> f(xs[j]).Success?;
          Failure(rest.error)
        else
          Success([first.value] + rest.value)
  }

  /** `convertEntriesToLeaflet(publication, entries, authorDid)`: the documents of all
      entries in order, or the missing-content error when any entry has no content. */
  function EntriesToLeaflet(publicationRkey: string, entries: seq<Entry>, authorDid: string,
                            decodeUriComponent: string -> string): (r: Result<seq<Document>, string>)
    ensures r.Success? <==> forall k :: 0 <= k < |entries| ==> HasContent(entries[k])
    ensures r.Failure? ==> r.error == MissingContent
    ensures r.Success? ==> |r.value| == |entries|
                           && forall k :: 0 <= k < |entries|
                                ==> EntryToDocument(publicationRkey, entries[k], authorDid,
                                                    decodeUriComponent) == Success(r.value[k])
  {
    MapOrThrow(entries, e => EntryToDocument(publicationRkey, e, authorDid, decodeUriComponent))
  }
}
