/** OPDS support for AO3 works (`opds.py`): the link, person and category
    records, the feed of works and the feed entry built from one work. */
module Opds {
  import opened Wrappers
  import opened Text
  import opened Library

  const AO3_PUBLISHER := "Archive of Our Own"
  const AO3_TAG_SCHEMA := "https://archiveofourown.org/faq/tags"
  const AO3_IMAGE_LINK_REL := "http://opds-spec.org/image"
  const AO3_ACQUISITION_LINK_REL := "http://opds-spec.org/acquisition"
  const AO3_DOWNLOAD_FILETYPES := ["AZW3", "EPUB", "HTML", "MOBI", "PDF"]
  const AO3_URL_BASE := "https://archiveofourown.org/"

  /** An atom:link; only `href` is required. */
  datatype Link = Link(href: string, rel: Option<string>, mediaType: Option<string>,
                       hreflang: Option<string>, title: Option<string>, length: Option<int>)

  /** An atom:Person; only `name` is required. */
  datatype Person = Person(name: string, uri: Option<string>, email: Option<string>)

  /** An atom:category. */
  datatype Category = Category(term: string, scheme: Option<string>, labelText: Option<string>)

  /** An author as the AO3 library gives it: a bare name, or a user with a
      profile URL. */
  datatype Author = Pseudonym(name: string) | Account(username: string, url: string)

  /** The metadata of a loaded work. `updated` and `published` are the
      dates already converted to UTC ISO-8601 text. */
  datatype Metadata = Metadata(
    title: string, url: string, updated: string, published: string,
    authors: seq<Author>, language: string, summary: string,
    categories: seq<string>, fandoms: seq<string>, characters: seq<string>,
    relationships: seq<string>, warnings: seq<string>, tags: seq<string>,
    rating: Option<string>)

  /** `AO3UserOPDS(user)`: the atom:Person for an author. AO3 gives no
      e-mail address, and a bare name has no URI. */
  function UserPerson(author: Author): (p: Person)
    ensures p.email == None
    ensures p.uri.None? <==> author.Pseudonym?
    ensures p.name == (if author.Pseudonym? then author.name else author.username)
    ensures author.Account? ==> p.uri == Some(author.url)
  {
    match author
    case Pseudonym(name) => Person(name, None, None)
    case Account(username, url) => Person(username, Some(url), None)
  }

  /** The part of an `AO3.Work` the feed uses. `fullText` is what
      `load_chapters` fetches, `images` what `get_images()` gives, chapter by
      chapter, and `downloads` the download menu as (link text, href). */
  class Work {
    const meta: Metadata
    const fullText: seq<string>
    const images: seq<seq<(int, string)>>
    const downloads: seq<(string, string)>
    var loaded: bool
    var chapters: seq<string>
    /** The `load_chapters` flag of every `reload` call, in order. */
    var reloads: seq<bool>

    constructor (meta: Metadata, fullText: seq<string>, images: seq<seq<(int, string)>>,
                 downloads: seq<(string, string)>, loaded: bool, chapters: seq<string>)
      ensures this.meta == meta && this.fullText == fullText && this.images == images
      ensures this.downloads == downloads && this.loaded == loaded && this.chapters == chapters
      ensures this.reloads == []
    {
      this.meta, this.fullText, this.images, this.downloads := meta, fullText, images, downloads;
      this.loaded, this.chapters, this.reloads := loaded, chapters, [];
    }

    /** `reload(load_chapters)`: fetches the metadata and, when asked, the
        chapters. */
    method Reload(loadChapters: bool)
      modifies this
      ensures loaded
      ensures chapters == if loadChapters then fullText else old(chapters)
      ensures reloads == old(reloads) + [loadChapters]
    {
      loaded := true;
      if loadChapters {
        chapters := fullText;
      }
      reloads := reloads + [loadChapters];
    }

    /** `load_chapters()`. */
    method LoadChapters()
      modifies this
      ensures chapters == fullText
      ensures loaded == old(loaded) && reloads == old(reloads)
    {
      chapters := fullText;
    }
  }

  // ---------------------------------------------------------------------
  // Specification functions
  // ---------------------------------------------------------------------

  /** One category per tag, in order, under the AO3 tag schema and `kind`. */
  function Labelled(tags: seq<string>, kind: string): (r: seq<Category>)
    ensures |r| == |tags|
  {
    seq(|tags|, k requires 0 <= k < |tags| => Category(tags[k], Some(AO3_TAG_SCHEMA), Some(kind)))
  }

  /** The categories of a work: its categories, fandoms, characters,
      relationships, warnings and additional tags, each labelled with its
      kind, then its rating when it has one. */
  function CategoriesOf(m: Metadata): seq<Category>
  {
    Labelled(m.categories, "category") + Labelled(m.fandoms, "fandom")
    + Labelled(m.characters, "character") + Labelled(m.relationships, "relationship")
    + Labelled(m.warnings, "warning") + Labelled(m.tags, "tag")
    + (if m.rating.Some? then Labelled([m.rating.value], "rating") else [])
  }

  /** The terms of the categories carrying `kind`, in order. */
  function TermsLabelled(cs: seq<Category>, kind: string): (r: seq<string>)
    ensures |r| <= |cs|
  {
    if cs == [] then []
    else TermOf(cs[0], kind) + TermsLabelled(cs[1..], kind)
  }

  /** The term of a category when it carries `kind`. */
  function TermOf(c: Category, kind: string): seq<string>
  {
    if c.labelText == Some(kind) then [c.term] else []
  }

  lemma {:induction false} TermsLabelledAppend(a: seq<Category>, b: seq<Category>, kind: string)
    ensures TermsLabelled(a + b, kind) == TermsLabelled(a, kind) + TermsLabelled(b, kind)
  {
    if a == [] {
      assert a + b == b;
    } else {
      assert (a + b)[0] == a[0];
      assert (a + b)[1..] == a[1..] + b;
      TermsLabelledAppend(a[1..], b, kind);
      var h := TermOf(a[0], kind);
      assert TermsLabelled(a + b, kind) == h + (TermsLabelled(a[1..], kind) + TermsLabelled(b, kind));
      assert h + (TermsLabelled(a[1..], kind) + TermsLabelled(b, kind))
          == (h + TermsLabelled(a[1..], kind)) + TermsLabelled(b, kind);
    }
  }

  lemma {:induction false} TermsOfLabelled(tags: seq<string>, tagKind: string, kind: string)
    ensures TermsLabelled(Labelled(tags, tagKind), kind) == if tagKind == kind then tags else []
  {
    if tags != [] {
      assert Labelled(tags, tagKind)[1..] == Labelled(tags[1..], tagKind);
      TermsOfLabelled(tags[1..], tagKind, kind);
    }
  }

  /** The tags of one kind when that kind is the one selected. */
  function Pick(tags: seq<string>, tagKind: string, kind: string): seq<string>
  {
    if tagKind == kind then tags else []
  }

  lemma TermsOfCategories(m: Metadata, kind: string)
    ensures TermsLabelled(CategoriesOf(m), kind)
      == Pick(m.categories, "category", kind) + Pick(m.fandoms, "fandom", kind)
       + Pick(m.characters, "character", kind) + Pick(m.relationships, "relationship", kind)
       + Pick(m.warnings, "warning", kind) + Pick(m.tags, "tag", kind)
       + (if m.rating.Some? then Pick([m.rating.value], "rating", kind) else [])
  {
    var p0, p1, p2 := Labelled(m.categories, "category"), Labelled(m.fandoms, "fandom"), Labelled(m.characters, "character");
    var p3, p4, p5 := Labelled(m.relationships, "relationship"), Labelled(m.warnings, "warning"), Labelled(m.tags, "tag");
    var p6 := if m.rating.Some? then Labelled([m.rating.value], "rating") else [];
    TermsLabelledAppend(p0 + p1 + p2 + p3 + p4 + p5, p6, kind);
    TermsLabelledAppend(p0 + p1 + p2 + p3 + p4, p5, kind);
    TermsLabelledAppend(p0 + p1 + p2 + p3, p4, kind);
    TermsLabelledAppend(p0 + p1 + p2, p3, kind);
    TermsLabelledAppend(p0 + p1, p2, kind);
    TermsLabelledAppend(p0, p1, kind);
    TermsOfLabelled(m.categories, "category", kind);
    TermsOfLabelled(m.fandoms, "fandom", kind);
    TermsOfLabelled(m.characters, "character", kind);
    TermsOfLabelled(m.relationships, "relationship", kind);
    TermsOfLabelled(m.warnings, "warning", kind);
    TermsOfLabelled(m.tags, "tag", kind);
    if m.rating.Some? {
      TermsOfLabelled([m.rating.value], "rating", kind);
    }
  }

  /** The labels keep the kinds apart: selecting the categories by label
      gives back each list of tags, and the rating. */
  lemma CategoriesByLabel(m: Metadata)
    ensures TermsLabelled(CategoriesOf(m), "category") == m.categories
    ensures TermsLabelled(CategoriesOf(m), "fandom") == m.fandoms
    ensures TermsLabelled(CategoriesOf(m), "character") == m.characters
    ensures TermsLabelled(CategoriesOf(m), "relationship") == m.relationships
    ensures TermsLabelled(CategoriesOf(m), "warning") == m.warnings
    ensures TermsLabelled(CategoriesOf(m), "tag") == m.tags
    ensures TermsLabelled(CategoriesOf(m), "rating") == if m.rating.Some? then [m.rating.value] else []
  {
    var cs := CategoriesOf(m);
    LabelsDistinct();
    assert TermsLabelled(cs, "category") == m.categories by { TermsOfCategories(m, "category"); }
    assert TermsLabelled(cs, "fandom") == m.fandoms by { TermsOfCategories(m, "fandom"); }
    assert TermsLabelled(cs, "character") == m.characters by { TermsOfCategories(m, "character"); }
    assert TermsLabelled(cs, "relationship") == m.relationships by { TermsOfCategories(m, "relationship"); }
    assert TermsLabelled(cs, "warning") == m.warnings by { TermsOfCategories(m, "warning"); }
    assert TermsLabelled(cs, "tag") == m.tags by { TermsOfCategories(m, "tag"); }
    TermsOfCategories(m, "rating");
  }

  /** The seven labels are different strings. */
  lemma LabelsDistinct()
    ensures "category" != "fandom"
    ensures "category" != "character"
    ensures "category" != "relationship"
    ensures "category" != "warning"
    ensures "category" != "tag"
    ensures "category" != "rating"
    ensures "fandom" != "character"
    ensures "fandom" != "relationship"
    ensures "fandom" != "warning"
    ensures "fandom" != "tag"
    ensures "fandom" != "rating"
    ensures "character" != "relationship"
    ensures "character" != "warning"
    ensures "character" != "tag"
    ensures "character" != "rating"
    ensures "relationship" != "warning"
    ensures "relationship" != "tag"
    ensures "relationship" != "rating"
    ensures "warning" != "tag"
    ensures "warning" != "rating"
    ensures "tag" != "rating"
  {
    assert "category"[0] != "fandom"[0];
    assert "category"[1] != "character"[1];
    assert "category"[0] != "relationship"[0];
    assert "category"[0] != "warning"[0];
    assert "category"[0] != "tag"[0];
    assert "category"[0] != "rating"[0];
    assert "fandom"[0] != "character"[0];
    assert "fandom"[0] != "relationship"[0];
    assert "fandom"[0] != "warning"[0];
    assert "fandom"[0] != "tag"[0];
    assert "fandom"[0] != "rating"[0];
    assert "character"[0] != "relationship"[0];
    assert "character"[0] != "warning"[0];
    assert "character"[0] != "tag"[0];
    assert "character"[0] != "rating"[0];
    assert "relationship"[0] != "warning"[0];
    assert "relationship"[0] != "tag"[0];
    assert "relationship"[1] != "rating"[1];
    assert "warning"[0] != "tag"[0];
    assert "warning"[0] != "rating"[0];
    assert "tag"[0] != "rating"[0];
  }

  /** Every category of a work is under the AO3 tag schema, and there is
      one per tag plus one for the rating. */
  lemma {:induction false} CategoriesShape(m: Metadata)
    ensures forall c :: c in CategoriesOf(m) ==> c.scheme == Some(AO3_TAG_SCHEMA)
    ensures |CategoriesOf(m)| == |m.categories| + |m.fandoms| + |m.characters| + |m.relationships|
      + |m.warnings| + |m.tags| + (if m.rating.Some? then 1 else 0)
  {
  }

  /** The chapters' text, one after the other. */
  function Concat(chapters: seq<string>): (r: string)
    ensures |chapters| == 1 ==> r == chapters[0]
  {
    if chapters == [] then "" else Concat(chapters[..|chapters| - 1]) + chapters[|chapters| - 1]
  }

  /** Joining two runs of chapters joins their text. */
  lemma {:induction false} ConcatAppend(a: seq<string>, b: seq<string>)
    ensures Concat(a + b) == Concat(a) + Concat(b)
    decreases |b|
  {
    if b == [] {
      assert a + b == a;
    } else {
      assert (a + b)[..|a + b| - 1] == a + b[..|b| - 1];
      ConcatAppend(a, b[..|b| - 1]);
    }
  }

  /** The image URLs of `get_images()`, chapter after chapter, in order. */
  function ImageUrls(images: seq<seq<(int, string)>>): (r: seq<string>)
  {
    if images == [] then []
    else ImageUrls(images[..|images| - 1]) + Urls(images[|images| - 1])
  }

  /** The URLs of one chapter's (paragraph, URL) pairs. */
  function Urls(pairs: seq<(int, string)>): (r: seq<string>)
    ensures |r| == |pairs| && forall k :: 0 <= k < |pairs| ==> r[k] == pairs[k].1
  {
    seq(|pairs|, k requires 0 <= k < |pairs| => pairs[k].1)
  }

  /** Every image of every chapter is kept, and nothing else. */
  lemma {:induction false} ImageUrlsComplete(images: seq<seq<(int, string)>>)
    ensures forall u :: u in ImageUrls(images) <==>
      exists c, p :: 0 <= c < |images| && 0 <= p < |images[c]| && images[c][p].1 == u
  {
    if images != [] {
      var init := images[..|images| - 1];
      var last := images[|images| - 1];
      ImageUrlsComplete(init);
      forall u | u in ImageUrls(images)
        ensures exists c, p :: 0 <= c < |images| && 0 <= p < |images[c]| && images[c][p].1 == u
      {
        if u in ImageUrls(init) {
          var c, p :| 0 <= c < |init| && 0 <= p < |init[c]| && init[c][p].1 == u;
          assert images[c] == init[c];
        } else {
          assert u in Urls(last);
          var p :| 0 <= p < |last| && last[p].1 == u;
          assert images[|images| - 1][p].1 == u;
        }
      }
      forall u | exists c, p :: 0 <= c < |images| && 0 <= p < |images[c]| && images[c][p].1 == u
        ensures u in ImageUrls(images)
      {
        var c, p :| 0 <= c < |images| && 0 <= p < |images[c]| && images[c][p].1 == u;
        if c < |images| - 1 {
          assert init[c][p].1 == u;
        } else {
          assert Urls(last)[p] == u;
        }
      }
    }
  }

  /** One link per URL, in order, with relation `rel` and the MIME type
      `mimetypes.guess_type` infers. */
  function LinksTo(lib: Lib, urls: seq<string>, rel: string): (r: seq<Link>)
    ensures |r| == |urls|
  {
    seq(|urls|, k requires 0 <= k < |urls| => Link(urls[k], Some(rel), lib.guessType(urls[k]), None, None, None))
  }

  /** The targets of a list of links. */
  function Hrefs(links: seq<Link>): (r: seq<string>)
    ensures |r| == |links|
  {
    seq(|links|, k requires 0 <= k < |links| => links[k].href)
  }

  /** The links point at the URLs they were made from, in order, each with
      the relation asked for and the inferred MIME type. */
  lemma LinksToTargets(lib: Lib, urls: seq<string>, rel: string)
    ensures Hrefs(LinksTo(lib, urls, rel)) == urls
    ensures forall l :: l in LinksTo(lib, urls, rel) ==> l.rel == Some(rel) && l.mediaType == lib.guessType(l.href)
  {
  }

  /** The absolute URL of a download option. */
  function OptionUrl(lib: Lib, option: (string, string)): string
  {
    lib.urlJoin(AO3_URL_BASE, option.1)
  }

  /** The file types, lower-cased. */
  function LowerAll(filetypes: seq<string>): (r: seq<string>)
    ensures |r| == |filetypes| && forall k :: 0 <= k < |filetypes| ==> r[k] == Lower(filetypes[k])
  {
    seq(|filetypes|, k requires 0 <= k < |filetypes| => Lower(filetypes[k]))
  }

  /** An option is selected when its lower-cased link text is one of the
      lower-cased file types, or when no file types are given. */
  predicate Selected(option: (string, string), filetypes: Option<seq<string>>)
  {
    filetypes.None? || Lower(option.0) in LowerAll(filetypes.value)
  }

  /** The download URLs `_extract_download_urls` is meant to give: one per
      selected option, in menu order. */
  function DownloadUrls(lib: Lib, downloads: seq<(string, string)>, filetypes: Option<seq<string>>): (r: seq<string>)
    ensures |r| <= |downloads|
  {
    if downloads == [] then []
    else
      var rest := DownloadUrls(lib, downloads[1..], filetypes);
      if Selected(downloads[0], filetypes) then [OptionUrl(lib, downloads[0])] + rest else rest
  }

  /** A URL is extracted exactly when some selected option resolves to it. */
  lemma {:induction false} DownloadUrlsMembers(lib: Lib, downloads: seq<(string, string)>, filetypes: Option<seq<string>>)
    ensures forall u :: u in DownloadUrls(lib, downloads, filetypes) <==>
      exists k :: 0 <= k < |downloads| && Selected(downloads[k], filetypes) && u == OptionUrl(lib, downloads[k])
  {
    if downloads != [] {
      DownloadUrlsMembers(lib, downloads[1..], filetypes);
      assert forall k :: 1 <= k < |downloads| ==> downloads[k] == downloads[1..][k - 1];
    }
  }

  /** Without a filter every option gives a URL. */
  lemma {:induction false} DownloadUrlsUnfiltered(lib: Lib, downloads: seq<(string, string)>)
    ensures DownloadUrls(lib, downloads, None) == seq(|downloads|, k requires 0 <= k < |downloads| => OptionUrl(lib, downloads[k]))
  {
    if downloads != [] {
      DownloadUrlsUnfiltered(lib, downloads[1..]);
    }
  }

  /** `_extract_download_urls` as written: `filetypes` becomes a one-shot
      `map` iterator, and each `x not in filetypes` test consumes it up to
      and including the first match, or to its end. `remaining` is what the
      iterator still holds. */
  function CursorUrls(lib: Lib, downloads: seq<(string, string)>, remaining: seq<string>): (r: seq<string>)
    ensures |r| <= |downloads|
    ensures remaining == [] ==> r == []
  {
    if downloads == [] then []
    else
      var text := Lower(downloads[0].0);
      if text in remaining then
        var k := IndexOf(remaining, text);
        [OptionUrl(lib, downloads[0])] + CursorUrls(lib, downloads[1..], remaining[k + 1..])
      else CursorUrls(lib, downloads[1..], [])
  }

  /** The first position of `x` in `s`. */
  function IndexOf(s: seq<string>, x: string): (k: nat)
    requires x in s
    ensures k < |s| && s[k] == x && x !in s[..k]
  {
    if s[0] == x then 0 else 1 + IndexOf(s[1..], x)
  }

  lemma IndexOfIs(s: seq<string>, x: string, j: nat)
    requires j < |s| && s[j] == x && x !in s[..j]
    ensures IndexOf(s, x) == j
  {
  }

  /** `x in it` for a one-shot iterator `it` that still holds `items`: the
      test takes items one at a time until one equals `x` or none is left.
      `rest` is what the iterator holds afterwards. */
  method IteratorContains(items: seq<string>, x: string) returns (found: bool, rest: seq<string>)
    ensures found == (x in items)
    ensures found ==> x in items && rest == items[IndexOf(items, x) + 1..]
    ensures !found ==> rest == []
  {
    var j := 0;
    while j < |items|
      invariant j <= |items|
      invariant x !in items[..j]
    {
      if items[j] == x {
        IndexOfIs(items, x, j);
        return true, items[j + 1..];
      }
      assert items[..j + 1] == items[..j] + [items[j]];
      j := j + 1;
    }
    assert items[..j] == items;
    return false, [];
  }

  /** The URLs the as-written filter still has to add for the menu suffix `downloads`,
      with `remaining` the unconsumed tail of the filter's iterator. */
  function Pending(lib: Lib, downloads: seq<(string, string)>, filetypes: Option<seq<string>>, remaining: seq<string>): seq<string>
  {
    if filetypes.None? then DownloadUrls(lib, downloads, None) else CursorUrls(lib, downloads, remaining)
  }

  /** One iteration of the loop in `_extract_download_urls`: the option at `i` is
      selected when the iterator still yields its label (always, without a filter). */
  lemma PendingStep(lib: Lib, downloads: seq<(string, string)>, i: nat, filetypes: Option<seq<string>>,
                    remaining: seq<string>, selected: bool, rest: seq<string>)
    requires i < |downloads|
    requires filetypes.None? ==> selected && rest == remaining
    requires filetypes.Some? ==> selected == (Lower(downloads[i].0) in remaining)
    requires filetypes.Some? && selected ==> rest == remaining[IndexOf(remaining, Lower(downloads[i].0)) + 1..]
    requires filetypes.Some? && !selected ==> rest == []
    ensures Pending(lib, downloads[i..], filetypes, remaining)
         == (if selected then [OptionUrl(lib, downloads[i])] else []) + Pending(lib, downloads[i + 1..], filetypes, rest)
  {
    assert downloads[i..][1..] == downloads[i + 1..];
  }

  lemma AppendShift(a: seq<string>, x: string, b: seq<string>)
    ensures (a + [x]) + b == a + ([x] + b)
  {
  }

  /** What `_extract_download_urls(filetypes)` gives as written: every
      option when no file types are given, and otherwise the options the
      one-shot iterator lets through. */
  function DownloadUrlsAsWritten(lib: Lib, downloads: seq<(string, string)>, filetypes: Option<seq<string>>)
    : (r: seq<string>)
    ensures |r| <= |downloads|
    ensures filetypes == Some([]) ==> r == []
  {
    if filetypes.None? then DownloadUrls(lib, downloads, None)
    else CursorUrls(lib, downloads, LowerAll(filetypes.value))
  }

  /** As written, the filter never keeps an option it should not: its URLs
      are a subsequence of the intended ones. */
  lemma {:induction false} CursorUrlsWithin(lib: Lib, downloads: seq<(string, string)>, remaining: seq<string>, filetypes: seq<string>)
    requires forall x :: x in remaining ==> x in LowerAll(filetypes)
    ensures IsSubsequence(CursorUrls(lib, downloads, remaining), DownloadUrls(lib, downloads, Some(filetypes)))
  {
    if downloads != [] {
      var text := Lower(downloads[0].0);
      var full := DownloadUrls(lib, downloads, Some(filetypes));
      var rest := DownloadUrls(lib, downloads[1..], Some(filetypes));
      if text in remaining {
        var k := IndexOf(remaining, text);
        CursorUrlsWithin(lib, downloads[1..], remaining[k + 1..], filetypes);
        assert full == [OptionUrl(lib, downloads[0])] + rest;
      } else {
        CursorUrlsWithin(lib, downloads[1..], [], filetypes);
        if Selected(downloads[0], Some(filetypes)) {
          assert full == [OptionUrl(lib, downloads[0])] + rest;
          assert full[1..] == rest;
        }
      }
    }
  }

  lemma DownloadUrlsAsWrittenWithin(lib: Lib, downloads: seq<(string, string)>, filetypes: Option<seq<string>>)
    ensures IsSubsequence(DownloadUrlsAsWritten(lib, downloads, filetypes), DownloadUrls(lib, downloads, filetypes))
  {
    if filetypes.Some? {
      CursorUrlsWithin(lib, downloads, LowerAll(filetypes.value), filetypes.value);
    } else {
      SubsequenceReflexive(DownloadUrls(lib, downloads, filetypes));
    }
  }

  lemma {:induction false} SubsequenceReflexive(s: seq<string>)
    ensures IsSubsequence(s, s)
  {
    if s != [] {
      SubsequenceReflexive(s[1..]);
    }
  }

  /** As written, asking for EPUB only on a menu that lists AZW3 before
      EPUB gives no URL at all: the test for "azw3" exhausts the iterator
      before "epub" is looked at. */
  lemma CursorDropsLaterOption(lib: Lib)
    ensures DownloadUrlsAsWritten(lib, [("AZW3", "/downloads/1/w.azw3"), ("EPUB", "/downloads/1/w.epub")], Some(["EPUB"])) == []
    ensures DownloadUrls(lib, [("AZW3", "/downloads/1/w.azw3"), ("EPUB", "/downloads/1/w.epub")], Some(["EPUB"]))
         == [lib.urlJoin(AO3_URL_BASE, "/downloads/1/w.epub")]
  {
    var ds := [("AZW3", "/downloads/1/w.azw3"), ("EPUB", "/downloads/1/w.epub")];
    assert Lower("AZW3") == "azw3";
    assert Lower("EPUB") == "epub";
    assert LowerAll(["EPUB"]) == ["epub"];
    assert "azw3" !in ["epub"] by {
      assert "azw3"[0] != "epub"[0];
    }
    assert ds[1..] == [("EPUB", "/downloads/1/w.epub")];
    assert ds[1..][1..] == [];
    assert CursorUrls(lib, ds[1..], []) == [];
  }

  // ---------------------------------------------------------------------
  // Feed entries
  // ---------------------------------------------------------------------

  /** `AO3WorkOPDS`: the OPDS entry for one work. */
  class WorkEntry {
    const work: Work
    const lib: Lib
    var title: string
    var id: string
    var updated: string
    var authors: seq<Person>
    var language: string
    var publisher: string
    var published: string
    var summary: string
    var categories: seq<Category>
    var content: Option<string>
    var links: seq<Link>

    /** The entry's metadata is the work's. */
    predicate Describes(w: Work)
      reads this
    {
      && work == w
      && title == w.meta.title
      && id == Lower(w.meta.url)
      && updated == w.meta.updated
      && authors == Persons(w.meta.authors)
      && language == w.meta.language
      && publisher == AO3_PUBLISHER
      && published == w.meta.published
      && summary == w.meta.summary
      && categories == CategoriesOf(w.meta)
    }

    /** The entry `AO3WorkOPDS(w)` builds without content or images: the
        work's metadata and one acquisition link per download option. */
    predicate PlainEntry(w: Work, l: Lib)
      reads this
    {
      && Describes(w)
      && content == None
      && links == LinksTo(l, DownloadUrls(l, w.downloads, None), AO3_ACQUISITION_LINK_REL)
    }

    /** `AO3WorkOPDS(work, get_content, get_images)`: reloads the work when
        it is not loaded (with its chapters only if content or images are
        wanted), copies its metadata, and links its downloads, then its
        images when asked. */
    constructor (work: Work, lib: Lib, getContent: bool, getImages: bool)
      modifies work
      ensures Describes(work) && this.lib == lib
      ensures work.loaded
      ensures work.reloads == old(work.reloads) + (if old(work.loaded) then [] else [getContent || getImages])
      ensures var text := if old(work.loaded) || !(getContent || getImages) then old(work.chapters) else work.fullText;
        && work.chapters == (if (getContent || getImages) && text == [] then work.fullText else text)
        && content == (if getContent then Some(Concat(if text == [] then work.fullText else text)) else None)
        && links == LinksTo(lib, DownloadUrls(lib, work.downloads, None), AO3_ACQUISITION_LINK_REL)
                    + (if getImages then LinksTo(lib, ImageUrls(work.images), AO3_IMAGE_LINK_REL) else [])
    {
      this.work := work;
      this.lib := lib;
      new;
      LoadWork(getContent || getImages);
      CopyMetadata();
      AttachLinksAndContent(getContent, getImages);
    }

    /** The metadata part of `__init__`: the title, the lower-cased URL as
        id, the dates, one person per author, the language, AO3 as
        publisher, the summary and the categories. */
    method CopyMetadata()
      modifies this`title, this`id, this`updated, this`authors, this`language, this`publisher,
               this`published, this`summary, this`categories
      ensures Describes(work)
    {
      var people := AuthorPersons(work.meta.authors);
      title := work.meta.title;
      id := Lower(work.meta.url);
      updated := work.meta.updated;
      authors := people;
      language := work.meta.language;
      publisher := AO3_PUBLISHER;
      published := work.meta.published;
      summary := work.meta.summary;
      categories := ExtractCategories();
    }

    /** The start of `__init__`: an unloaded work is reloaded, with its
        chapters only when they will be needed. */
    method LoadWork(loadChapters: bool)
      modifies work
      ensures work.loaded
      ensures work.reloads == old(work.reloads) + (if old(work.loaded) then [] else [loadChapters])
      ensures work.chapters == if old(work.loaded) || !loadChapters then old(work.chapters) else work.fullText
    {
      if !work.loaded {
        work.Reload(loadChapters);
      }
    }

    /** The end of `__init__`: the acquisition links, then the content and
        the image links when asked for. */
    method AttachLinksAndContent(getContent: bool, getImages: bool)
      modifies this`content, this`links, work
      ensures work.loaded == old(work.loaded) && work.reloads == old(work.reloads)
      ensures var text := old(work.chapters);
        && work.chapters == (if (getContent || getImages) && text == [] then work.fullText else text)
        && content == (if getContent then Some(Concat(if text == [] then work.fullText else text)) else None)
        && links == LinksTo(lib, DownloadUrls(lib, work.downloads, None), AO3_ACQUISITION_LINK_REL)
                    + (if getImages then LinksTo(lib, ImageUrls(work.images), AO3_IMAGE_LINK_REL) else [])
    {
      content := None;
      links := [];
      var acquisition := GetAcquisitionLinks(None);
      links := links + acquisition;
      assert links == acquisition;
      if getContent {
        var c := GetContent();
        content := Some(c);
      }
      if getImages {
        var images := GetImages();
        links := links + images;
      } else {
        assert links == links + [];
      }
    }

    /** `extract_categories()`: each tag list of the work in turn, labelled
        with its kind, then the rating. */
    method ExtractCategories() returns (r: seq<Category>)
      ensures r == CategoriesOf(work.meta)
    {
      var m := work.meta;
      r := [];
      r := AddLabelled(r, m.categories, "category");
      r := AddLabelled(r, m.fandoms, "fandom");
      r := AddLabelled(r, m.characters, "character");
      r := AddLabelled(r, m.relationships, "relationship");
      r := AddLabelled(r, m.warnings, "warning");
      r := AddLabelled(r, m.tags, "tag");
      assert [] + Labelled(m.categories, "category") == Labelled(m.categories, "category");
      if m.rating.Some? {
        r := r + [Category(m.rating.value, Some(AO3_TAG_SCHEMA), Some("rating"))];
        assert [Category(m.rating.value, Some(AO3_TAG_SCHEMA), Some("rating"))] == Labelled([m.rating.value], "rating");
      } else {
        assert r == r + [];
      }
    }

    /** `get_content()`: loads the chapters when there are none, then joins
        their text. */
    method GetContent() returns (content: string)
      modifies work
      ensures work.chapters == if old(work.chapters) == [] then work.fullText else old(work.chapters)
      ensures content == Concat(work.chapters)
      ensures work.loaded == old(work.loaded) && work.reloads == old(work.reloads)
    {
      if work.chapters == [] {
        work.LoadChapters();
      }
      content := "";
      var i := 0;
      while i < |work.chapters|
        invariant i <= |work.chapters|
        invariant content == Concat(work.chapters[..i])
      {
        assert work.chapters[..i + 1][..i] == work.chapters[..i];
        content := content + work.chapters[i];
        i := i + 1;
      }
      assert work.chapters[..i] == work.chapters;
    }

    /** `get_images()`: loads the chapters when there are none, collects
        the image URLs chapter by chapter and links each as an image. */
    method GetImages() returns (links: seq<Link>)
      modifies work
      ensures work.chapters == if old(work.chapters) == [] then work.fullText else old(work.chapters)
      ensures links == LinksTo(lib, ImageUrls(work.images), AO3_IMAGE_LINK_REL)
      ensures work.loaded == old(work.loaded) && work.reloads == old(work.reloads)
    {
      if work.chapters == [] {
        work.LoadChapters();
      }
      var images := CollectImageUrls(work.images);
      links := MakeLinks(lib, images, AO3_IMAGE_LINK_REL);
    }

    /** `get_acquisition_links(filetypes)`: one acquisition link per URL
        `_extract_download_urls` gives, with the inferred MIME type. */
    method GetAcquisitionLinks(filetypes: Option<seq<string>>) returns (links: seq<Link>)
      ensures links == LinksTo(lib, DownloadUrlsAsWritten(lib, work.downloads, filetypes), AO3_ACQUISITION_LINK_REL)
    {
      var urls := ExtractDownloadUrls(filetypes);
      links := MakeLinks(lib, urls, AO3_ACQUISITION_LINK_REL);
    }

    /** `_extract_download_urls(filetypes)` as written: the menu in order,
        each option checked against what remains of the one-shot iterator
        `map(str.lower, filetypes)`, and its URL resolved against the AO3
        base URL when it passes. */
    method ExtractDownloadUrls(filetypes: Option<seq<string>>) returns (urls: seq<string>)
      ensures urls == DownloadUrlsAsWritten(lib, work.downloads, filetypes)
    {
      var downloadList := work.downloads;
      var remaining := if filetypes.Some? then LowerAll(filetypes.value) else [];
      urls := [];
      var i := 0;
      assert downloadList[0..] == downloadList;
      while i < |downloadList|
        invariant i <= |downloadList|
        invariant urls + Pending(lib, downloadList[i..], filetypes, remaining)
               == DownloadUrlsAsWritten(lib, downloadList, filetypes)
      {
        var option := downloadList[i];
        var selected := true;
        var before := remaining;
        if filetypes.Some? {
          selected, remaining := IteratorContains(remaining, Lower(option.0));
        }
        PendingStep(lib, downloadList, i, filetypes, before, selected, remaining);
        if selected {
          AppendShift(urls, OptionUrl(lib, option), Pending(lib, downloadList[i + 1..], filetypes, remaining));
          urls := urls + [lib.urlJoin(AO3_URL_BASE, option.1)];
        }
        i := i + 1;
      }
      assert urls + [] == urls;
    }
  }

  /** `[AO3UserOPDS(author) for author in authors]`, built by appending. */
  method AuthorPersons(authors: seq<Author>) returns (people: seq<Person>)
    ensures people == Persons(authors)
  {
    people := [];
    var i := 0;
    while i < |authors|
      invariant i <= |authors|
      invariant |people| == i
      invariant forall k :: 0 <= k < i ==> people[k] == UserPerson(authors[k])
    {
      people := people + [UserPerson(authors[i])];
      i := i + 1;
    }
  }

  /** One atom:Person per author, in order. */
  function Persons(authors: seq<Author>): (r: seq<Person>)
    ensures |r| == |authors| && forall k :: 0 <= k < |authors| ==> r[k] == UserPerson(authors[k])
  {
    seq(|authors|, k requires 0 <= k < |authors| => UserPerson(authors[k]))
  }

  /** The nested loop of `get_images`: the URL of every (paragraph, URL)
      pair, chapter after chapter. */
  method CollectImageUrls(imageDict: seq<seq<(int, string)>>) returns (images: seq<string>)
    ensures images == ImageUrls(imageDict)
  {
    images := [];
    var c := 0;
    while c < |imageDict|
      invariant c <= |imageDict|
      invariant images == ImageUrls(imageDict[..c])
    {
      var pairs := imageDict[c];
      var p := 0;
      while p < |pairs|
        invariant p <= |pairs|
        invariant images == ImageUrls(imageDict[..c]) + Urls(pairs[..p])
      {
        images := images + [pairs[p].1];
        p := p + 1;
      }
      assert pairs[..p] == pairs;
      assert imageDict[..c + 1][..c] == imageDict[..c];
      c := c + 1;
    }
    assert imageDict[..c] == imageDict;
  }

  /** One link per URL with relation `rel` and the MIME type
      `mimetypes.guess_type` infers, as the loops of `get_images` and
      `get_acquisition_links` build them. */
  method MakeLinks(lib: Lib, urls: seq<string>, rel: string) returns (links: seq<Link>)
    ensures links == LinksTo(lib, urls, rel)
  {
    links := [];
    var i := 0;
    while i < |urls|
      invariant i <= |urls|
      invariant links == LinksTo(lib, urls[..i], rel)
    {
      links := links + [Link(urls[i], Some(rel), lib.guessType(urls[i]), None, None, None)];
      i := i + 1;
    }
    assert urls[..i] == urls;
  }

  /** Appends one labelled category per tag, as each `for tag in ...` loop
      of `extract_categories` does. */
  method AddLabelled(categories: seq<Category>, tags: seq<string>, kind: string) returns (r: seq<Category>)
    ensures r == categories + Labelled(tags, kind)
  {
    r := categories;
    var i := 0;
    while i < |tags|
      invariant i <= |tags|
      invariant r == categories + Labelled(tags[..i], kind)
    {
      r := r + [Category(tags[i], Some(AO3_TAG_SCHEMA), Some(kind))];
      i := i + 1;
    }
    assert tags[..i] == tags;
  }

  /** The module-level `get_acquisition_links(work)`, a placeholder that
      gives no links whatever the work. */
  function PlaceholderAcquisitionLinks(work: Work): (r: seq<string>)
    ensures |r| == 0
  {
    []
  }

  // ---------------------------------------------------------------------
  // Feeds
  // ---------------------------------------------------------------------

  /** `AO3OPDS`: an OPDS feed of AO3 works. */
  class Feed {
    var id: string
    var title: string
    var links: seq<Link>
    var updated: string
    var authors: Option<seq<Person>>
    var entries: seq<WorkEntry>

    /** `AO3OPDS(works, id, title, links, updated, authors)`: no links
        becomes an empty list, no update time becomes `now` (the current UTC
        time in ISO-8601), and each work gets an entry, in order. */
    constructor (works: seq<Work>, lib: Lib, id: string, title: string, links: Option<seq<Link>>,
                 updated: Option<string>, now: string, authors: Option<seq<Person>>)
      modifies set w | w in works
      ensures this.id == id && this.title == title && this.authors == authors
      ensures this.links == (if links.Some? then links.value else [])
      ensures this.updated == (if updated.Some? then updated.value else now)
      ensures |entries| == |works|
      ensures forall k :: 0 <= k < |works| ==> fresh(entries[k]) && entries[k].PlainEntry(works[k], lib)
      ensures forall w :: w in works ==> w.loaded
      ensures forall w :: w in works ==>
        w.reloads == old(w.reloads) + (if old(w.loaded) then [] else [false]) && w.chapters == old(w.chapters)
    {
      this.id := id;
      this.title := title;
      this.links := if links.Some? then links.value else [];
      this.updated := if updated.Some? then updated.value else now;
      this.authors := authors;
      var made := MakeEntries(works, lib);
      this.entries := made;
    }
  }

  /** The loop of `AO3OPDS.__init__`: one entry per work, in order, built
      without content or images. */
  method MakeEntries(works: seq<Work>, lib: Lib) returns (made: seq<WorkEntry>)
    modifies set w | w in works
    ensures |made| == |works|
    ensures forall k :: 0 <= k < |works| ==> fresh(made[k]) && made[k].PlainEntry(works[k], lib)
    ensures forall w :: w in works ==> w.loaded
    ensures forall w :: w in works ==>
      w.reloads == old(w.reloads) + (if old(w.loaded) then [] else [false]) && w.chapters == old(w.chapters)
  {
    made := [];
    var i := 0;
    while i < |works|
      invariant i <= |works|
      invariant |made| == i
      invariant forall k :: 0 <= k < i ==> fresh(made[k]) && made[k].PlainEntry(works[k], lib)
      invariant forall w :: w in works ==>
        && w.loaded == (old(w.loaded) || w in works[..i])
        && w.reloads == old(w.reloads) + (if old(w.loaded) || w !in works[..i] then [] else [false])
        && w.chapters == old(w.chapters)
    {
      var entry := new WorkEntry(works[i], lib, false, false);
      made := made + [entry];
      assert works[..i + 1] == works[..i] + [works[i]];
      i := i + 1;
    }
    assert works[..i] == works;
  }
}
