/** `convertBlobUrlToAtUri` (identical in src/lib/convert.ts, src/lib/markdown-parser.ts and
    script.js). The global `decodeURIComponent` is passed in as `decodeUriComponent`. */
module BlobUri {
  import opened Wrappers
  import opened JsString
  import opened Patterns
  import opened PatternSpecs

  const EntryCollection: string := "/com.whtwnd.blog.entry/"
  const BlobCollection: string := "/com.atproto.blob/"

  function ConvertBlobUrlToAtUri(url: string, did: string, decodeUriComponent: string -> string): string
  {
    match NextMatch(GetBlobUrl, url, 0)
    case Some(m) =>
      "at://" + decodeUriComponent(Group1(url, m)) + EntryCollection + Group2(url, m)
    case None =>
      if Contains(url, "bafk") || Contains(url, "bafyb") then
        match NextMatch(CidReference, url, 0)
        case Some(c) => "at://" + did + BlobCollection + Group1(url, c)
        case None => url
      else url
  }

  /** A getBlob URL whose first `xrpc/com.atproto.sync.getBlob?did=` is followed by a DID
      without `&`, then `&cid=` and a CID ending at `&`, white space or the end, becomes
      `at://<decoded DID>/com.whtwnd.blog.entry/<CID>`. */
  lemma GetBlobRewritten(url: string, did: string, decodeUriComponent: string -> string,
                         i: nat, d: string, c: string, rest: string)
    requires i <= |url| && url[i..] == GetBlobPrefix + d + CidSeparator + c + rest
    requires d != [] && '&' !in d
    requires c != [] && '&' !in c && forall k :: 0 <= k < |c| ==> !IsSpace(c[k])
    requires rest == [] || rest[0] == '&' || IsSpace(rest[0])
    requires forall k :: 0 <= k < i ==> !OccursAt(url, k, GetBlobPrefix)
    ensures ConvertBlobUrlToAtUri(url, did, decodeUriComponent)
            == "at://" + decodeUriComponent(d) + EntryCollection + c
  {
    var m := GetBlobParts(url, i, d, c, rest);
    GetBlobAtIff(url, i, m);
    forall k | 0 <= k < i ensures MatchAt(GetBlobUrl, url, k).None? {
      assert !OccursAt(url, k, GetBlobPrefix);
    }
    LeftmostMatch(GetBlobUrl, url, 0, i);
  }

  /** The match the getBlob expression makes on a URL laid out as its parts. */
  lemma GetBlobParts(url: string, i: nat, d: string, c: string, rest: string) returns (m: Match)
    requires i <= |url| && url[i..] == GetBlobPrefix + d + CidSeparator + c + rest
    requires d != [] && '&' !in d
    requires c != [] && '&' !in c && forall k :: 0 <= k < |c| ==> !IsSpace(c[k])
    requires rest == [] || rest[0] == '&' || IsSpace(rest[0])
    ensures m.start == i && IsGetBlobMatch(url, m)
    ensures url[m.g1Start..m.g1End] == d && url[m.g2Start..m.g2End] == c
  {
    var u := url[i..];
    var p, s := |GetBlobPrefix|, |CidSeparator|;
    var j := i + p;
    var k := j + |d|;
    var e := k + s + |c|;
    m := Match(i, e, j, k, k + s, e);
    assert u[..p] == GetBlobPrefix;
    assert url[i..j] == u[..p];
    assert u[p..p + |d|] == d;
    assert url[j..k] == u[p..p + |d|];
    assert u[p + |d|..p + |d| + s] == CidSeparator;
    assert url[k..k + s] == u[p + |d|..p + |d| + s];
    assert u[p + |d| + s..p + |d| + s + |c|] == c;
    assert url[k + s..e] == u[p + |d| + s..p + |d| + s + |c|];
    assert u[p + |d| + s + |c|..] == rest;
    assert e < |url| ==> url[e] == rest[0];
    assert forall x :: j <= x < k ==> url[x] == d[x - j];
    assert forall x :: k + s <= x < e ==> url[x] == c[x - k - s];
  }

  /** Without a getBlob path, the first `bafk...`/`bafyb...` run of `[a-z0-9]` is taken as
      the CID: `at://<did>/com.atproto.blob/<CID>`. */
  lemma CidRewritten(url: string, did: string, decodeUriComponent: string -> string, i: nat, e: nat)
    requires !Contains(url, GetBlobPrefix)
    requires i <= |url| && CidAt(url, i) == Some(Match(i, e, i, e, i, i))
    requires forall k :: 0 <= k < i ==> CidAt(url, k).None?
    ensures ConvertBlobUrlToAtUri(url, did, decodeUriComponent)
            == "at://" + did + BlobCollection + url[i..e]
  {
    NoGetBlobMatch(url);
    assert OccursAt(url, i, "bafk") || OccursAt(url, i, "bafyb");
    forall k | 0 <= k < i ensures MatchAt(CidReference, url, k).None? {
    }
    LeftmostMatch(CidReference, url, 0, i);
  }

  lemma GetBlobMatchContains(url: string)
    ensures NextMatch(GetBlobUrl, url, 0).Some? ==> Contains(url, GetBlobPrefix)
  {
    if NextMatch(GetBlobUrl, url, 0).Some? {
      NextMatchLeftmost(GetBlobUrl, url, 0);
      var m := NextMatch(GetBlobUrl, url, 0).value;
      assert OccursAt(url, m.start, GetBlobPrefix);
    }
  }

  lemma NoGetBlobMatch(url: string)
    requires !Contains(url, GetBlobPrefix)
    ensures NextMatch(GetBlobUrl, url, 0).None?
  {
    GetBlobMatchContains(url);
  }

  /** A URL with neither a getBlob path nor a `bafk`/`bafyb` CID is returned unchanged. */
  lemma PlainUrlUnchanged(url: string, did: string, decodeUriComponent: string -> string)
    requires !Contains(url, GetBlobPrefix) && !Contains(url, "bafk") && !Contains(url, "bafyb")
    ensures ConvertBlobUrlToAtUri(url, did, decodeUriComponent) == url
  {
    NoGetBlobMatch(url);
  }

  /** Whatever the URL, the result is either the URL itself or an `at://` URI. */
  lemma ResultIsUrlOrAtUri(url: string, did: string, decodeUriComponent: string -> string)
    ensures var r := ConvertBlobUrlToAtUri(url, did, decodeUriComponent);
            r == url || StartsWith(r, "at://")
  {
  }
}
