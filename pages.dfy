/**
 * A fetched page, already parsed: the few elements the crawler reads from it,
 * and the content extraction that turns a page into the record it saves.
 */
module Pages {

  datatype Option<T> = None | Some(value: T)

  /** A `<meta>` element: its `name` attribute and its `content` attribute, when it has one. */
  datatype Meta = Meta(name: string, content: Option<string>)

  /** An `<img>` element and its `src` attribute, when it has one. */
  datatype Image = Image(src: Option<string>)

  /** An `<a>` element that has an `href`: the raw href and the tokens of its `rel` (none when absent). */
  datatype Anchor = Anchor(href: string, rel: seq<string>)

  /** The first `<link rel="canonical">` element and its `href` attribute, when it has one. */
  datatype CanonicalLink = CanonicalLink(href: Option<string>)

  /**
   * A parsed page: its visible text, its meta, image and anchor elements in
   * document order, and its canonical link element, if any.
   */
  datatype Page = Page(
    text: string,
    metas: seq<Meta>,
    images: seq<Image>,
    canonical: Option<CanonicalLink>,
    anchors: seq<Anchor>)

  /** What the extractor returns: text, meta description, meta keywords, image sources. */
  datatype Content = Content(text: string, description: string, keywords: string, images: seq<string>)

  /** One saved result: the visited URL, the meta description, the meta keywords and the image sources. */
  datatype Record = Record(url: string, description: string, keywords: string, images: seq<string>)

  /** The first `<meta>` element whose name is `name`, if there is one. */
  function FindMeta(metas: seq<Meta>, name: string): (r: Option<Meta>)
    ensures r.Some? ==> r.value.name == name && r.value in metas
    decreases |metas|
  {
    if metas == [] then None
    else if metas[0].name == name then Some(metas[0])
    else FindMeta(metas[1..], name)
  }

  /** `FindMeta` fails exactly when no element has the name, and otherwise finds the first one that has it. */
  lemma {:induction false} FindMetaFirst(metas: seq<Meta>, name: string)
    ensures FindMeta(metas, name).None? <==> forall k :: 0 <= k < |metas| ==> metas[k].name != name
    ensures FindMeta(metas, name).Some? ==>
              exists j :: 0 <= j < |metas| && metas[j] == FindMeta(metas, name).value &&
                          forall k :: 0 <= k < j ==> metas[k].name != name
    decreases |metas|
  {
    if metas != [] && metas[0].name != name {
      FindMetaFirst(metas[1..], name);
      assert forall k :: 1 <= k < |metas| ==> metas[k] == metas[1..][k - 1];
      if FindMeta(metas, name).Some? {
        var j :| 0 <= j < |metas[1..]| && metas[1..][j] == FindMeta(metas, name).value &&
                 forall k :: 0 <= k < j ==> metas[1..][k].name != name;
        assert metas[j + 1] == FindMeta(metas, name).value;
      }
    }
  }

  /** `metas[j]` is the first element whose name is `name`. */
  ghost predicate IsFirstMeta(metas: seq<Meta>, name: string, j: int) {
    0 <= j < |metas| && metas[j].name == name && forall k :: 0 <= k < j ==> metas[k].name != name
  }

  /** `FindMeta` returns the first element with the name. */
  lemma {:induction false} FindMetaAt(metas: seq<Meta>, name: string, j: int)
    requires IsFirstMeta(metas, name, j)
    ensures FindMeta(metas, name) == Some(metas[j])
    decreases j
  {
    if j > 0 {
      assert metas[0].name != name;
      assert IsFirstMeta(metas[1..], name, j - 1) by {
        assert forall k :: 0 <= k < j - 1 ==> metas[1..][k] == metas[k + 1];
      }
      FindMetaAt(metas[1..], name, j - 1);
    }
  }

  /**
   * The meta value the extractor reads: "" when no such tag exists, the tag's
   * content when it has one, and `None` when the tag has no content (the
   * attribute lookup raises).
   */
  function MetaValue(metas: seq<Meta>, name: string): Option<string> {
    match FindMeta(metas, name)
    case None => Some("")
    case Some(m) => m.content
  }

  /**
   * The value read is the content of the FIRST element with the name: a later
   * element with content does not help when the first one has none.
   */
  lemma MetaValueFirst(metas: seq<Meta>, name: string, j: int)
    requires IsFirstMeta(metas, name, j)
    ensures MetaValue(metas, name) == metas[j].content
  {
    FindMetaAt(metas, name, j);
  }

  /** The `src` of every image that has one, in document order. */
  function ImageSources(images: seq<Image>): (r: seq<string>)
    ensures |r| <= |images|
    decreases |images|
  {
    if images == [] then []
    else
      var rest := ImageSources(images[..|images| - 1]);
      match images[|images| - 1].src
      case Some(s) => rest + [s]
      case None => rest
  }

  /** A string is an image source exactly when some image has it as its `src`. */
  lemma {:induction false} ImageSourcesMembers(images: seq<Image>)
    ensures forall s :: s in ImageSources(images) <==> Image(Some(s)) in images
    decreases |images|
  {
    if images != [] {
      ImageSourcesMembers(images[..|images| - 1]);
      assert images == images[..|images| - 1] + [images[|images| - 1]];
    }
  }

  /** Collecting the sources of two runs of images one after the other is collecting them together. */
  lemma {:induction false} ImageSourcesAppend(xs: seq<Image>, ys: seq<Image>)
    ensures ImageSources(xs + ys) == ImageSources(xs) + ImageSources(ys)
    decreases |ys|
  {
    if ys != [] {
      var init := ys[..|ys| - 1];
      ImageSourcesAppend(xs, init);
      assert (xs + ys)[..|xs + ys| - 1] == xs + init;
      assert (xs + ys)[|xs + ys| - 1] == ys[|ys| - 1];
    } else {
      assert xs + ys == xs;
    }
  }

  /**
   * One image contributes its `src` when it has one and nothing otherwise; with
   * `ImageSourcesAppend` this gives document order, duplicates kept.
   */
  lemma ImageSourcesSingle(s: string)
    ensures ImageSources([Image(Some(s))]) == [s]
    ensures ImageSources([Image(None)]) == []
  {
  }

  /**
   * Content extraction. It fails (`None`) exactly when the first description
   * tag or the first keywords tag has no content attribute; otherwise it
   * returns the page text, the two meta values and the image sources.
   */
  function Extract(page: Page): Option<Content> {
    match MetaValue(page.metas, "description")
    case None => None
    case Some(description) =>
      match MetaValue(page.metas, "keywords")
      case None => None
      case Some(keywords) => Some(Content(page.text, description, keywords, ImageSources(page.images)))
  }

  /**
   * Extraction in terms of the page's elements: it fails exactly when the first
   * description element or the first keywords element has no content; on
   * success the description is the content of the first description element,
   * or "" when there is none, and likewise for keywords.
   */
  lemma ExtractSpec(page: Page)
    ensures Extract(page).None? <==>
              (exists j :: IsFirstMeta(page.metas, "description", j) && page.metas[j].content.None?) ||
              (exists j :: IsFirstMeta(page.metas, "keywords", j) && page.metas[j].content.None?)
    ensures Extract(page).Some? ==>
              var c := Extract(page).value;
              c.text == page.text && c.images == ImageSources(page.images) &&
              (forall j :: IsFirstMeta(page.metas, "description", j) ==> page.metas[j].content == Some(c.description)) &&
              (forall j :: IsFirstMeta(page.metas, "keywords", j) ==> page.metas[j].content == Some(c.keywords)) &&
              ((forall k :: 0 <= k < |page.metas| ==> page.metas[k].name != "description") ==> c.description == "") &&
              ((forall k :: 0 <= k < |page.metas| ==> page.metas[k].name != "keywords") ==> c.keywords == "")
  {
    MetaValueCases(page.metas, "description");
    MetaValueCases(page.metas, "keywords");
  }

  /**
   * `MetaValue` in terms of the elements: "" without an element of that name,
   * otherwise the content of the first one; the lookup fails exactly when that
   * first element has no content.
   */
  lemma MetaValueCases(metas: seq<Meta>, name: string)
    ensures (forall k :: 0 <= k < |metas| ==> metas[k].name != name) ==> MetaValue(metas, name) == Some("")
    ensures forall j :: IsFirstMeta(metas, name, j) ==> MetaValue(metas, name) == metas[j].content
    ensures MetaValue(metas, name).None? <==> exists j :: IsFirstMeta(metas, name, j) && metas[j].content.None?
  {
    FindMetaFirst(metas, name);
    forall j | IsFirstMeta(metas, name, j) ensures MetaValue(metas, name) == metas[j].content {
      MetaValueFirst(metas, name, j);
    }
    if FindMeta(metas, name).Some? {
      var j :| 0 <= j < |metas| && metas[j] == FindMeta(metas, name).value &&
               forall k :: 0 <= k < j ==> metas[k].name != name;
      assert IsFirstMeta(metas, name, j);
    }
  }

  /** A page without meta tags always extracts, with empty description and keywords. */
  lemma ExtractWithoutMeta(page: Page)
    requires page.metas == []
    ensures Extract(page) == Some(Content(page.text, "", "", ImageSources(page.images)))
  {
  }
}
