/** The document changes extension.js makes. The document is its head and its
    body, each a sequence of elements in document order. `querySelector(sel)`
    finds the first matching element of the whole document (the head comes
    first), and `.remove()` takes out that one element only; `appendChild`
    adds at the end. Every "inject" operation removes the first earlier tag of
    its kind and then appends one new tag, so it keeps a single tag of its kind
    in place from one call to the next, but does not clean up duplicates that
    were already there. */
module Dom {
  import opened Wrappers
  import opened Strings
  import opened HexColour
  import opened GithubRaw
  import opened Manifests
  import opened CssText
  import opened ColourShift

  // ---------------------------------------------------------------------------
  // Elements and selectors

  datatype Tag = Style | Link | Script | Other

  /** An element: its tag, its class list, its `href` and `src` attributes and its text. */
  datatype Element = Element(tag: Tag, classes: seq<string>, href: Option<string>, src: Option<string>, text: string)

  /** The selectors extension.js uses: a tag, the classes it must carry
      (`style.a.b`) and, optionally, the exact `href` (`link[href='x']`). */
  datatype Selector = Selector(tag: Tag, classes: seq<string>, href: Option<string>)

  predicate Matches(sel: Selector, e: Element)
  {
    && e.tag == sel.tag
    && (forall c :: c in sel.classes ==> c in e.classes)
    && (sel.href.Some? ==> e.href == sel.href)
  }

  const ColorsCssSel := Selector(Link, [], Some("colors.css"))                     // link[href='colors.css']
  const SchemeSel := Selector(Style, ["marketplaceCSS", "marketplaceScheme"], None)   // style.marketplaceCSS.marketplaceScheme
  const UserCssLinkSel := Selector(Link, [], Some("user.css"))                     // link[href='user.css']
  const UserCssSel := Selector(Style, ["marketplaceCSS", "marketplaceUserCSS"], None) // style.marketplaceCSS.marketplaceUserCSS
  const SnippetsSel := Selector(Style, ["marketplaceSnippets"], None)               // style.marketplaceSnippets
  const ThemeLinkSel := Selector(Link, ["marketplaceCSS"], None)                    // link.marketplaceCSS

  function SnippetsTag(text: string): Element
  {
    Element(Style, ["marketplaceSnippets"], None, None, text)
  }

  function SchemeTag(text: string): Element
  {
    Element(Style, ["marketplaceCSS", "marketplaceScheme"], None, None, text)
  }

  function UserCssTag(text: string): Element
  {
    Element(Style, ["marketplaceCSS", "marketplaceUserCSS"], None, None, text)
  }

  /** The deferred script of an extension (`defer` is not modelled). */
  function ExtensionScript(src: string): Element
  {
    Element(Script, [], None, Some(src), "")
  }

  function IncludedScript(src: string): Element
  {
    Element(Script, ["marketplaceScript"], None, Some(src), "")
  }

  /** The transition style the colour-shift loop shows while it swaps schemes. */
  const ShiftStyle := Element(Style, ["colorShift-style"], None, None,
    "* {\n                transition-duration: 400ms;\n            }\n"
    + "            main-type-bass {\n                transition-duration: unset !important;\n            }")

  // ---------------------------------------------------------------------------
  // Element sequences

  function CountIn(s: seq<Element>, sel: Selector): nat
  {
    if s == [] then 0 else (if Matches(sel, s[0]) then 1 else 0) + CountIn(s[1..], sel)
  }

  /** `querySelector(sel)?.remove()` within one sequence. */
  function RemoveFirst(s: seq<Element>, sel: Selector): seq<Element>
  {
    if s == [] then []
    else if Matches(sel, s[0]) then s[1..]
    else [s[0]] + RemoveFirst(s[1..], sel)
  }

  /** The index of the first element that matches. */
  function FirstIndex(s: seq<Element>, sel: Selector): (k: nat)
    requires CountIn(s, sel) > 0
    ensures k < |s| && Matches(sel, s[k]) && forall j :: 0 <= j < k ==> !Matches(sel, s[j])
  {
    if Matches(sel, s[0]) then 0
    else
      var k := FirstIndex(s[1..], sel);
      assert forall j :: 0 < j <= k ==> s[j] == s[1..][j - 1];
      k + 1
  }

  /** Without a match removal changes nothing. */
  lemma {:induction false} RemoveFirstUnmatched(s: seq<Element>, sel: Selector)
    requires CountIn(s, sel) == 0
    ensures RemoveFirst(s, sel) == s
  {
    if s != [] {
      RemoveFirstUnmatched(s[1..], sel);
      assert [s[0]] + s[1..] == s;
    }
  }

  /** Removal deletes exactly the first matching element and keeps the rest in order. */
  lemma {:induction false} RemoveFirstDeletes(s: seq<Element>, sel: Selector)
    requires CountIn(s, sel) > 0
    ensures var k := FirstIndex(s, sel); RemoveFirst(s, sel) == s[..k] + s[k + 1..]
  {
    if Matches(sel, s[0]) {
      assert s[..0] + s[1..] == s[1..];
    } else {
      var k := FirstIndex(s[1..], sel);
      RemoveFirstDeletes(s[1..], sel);
      DeleteAfterFirst(s, k);
    }
  }

  /** Deleting index `k` of the tail is deleting index `k + 1` of the whole. */
  lemma DeleteAfterFirst(s: seq<Element>, k: nat)
    requires k + 1 < |s|
    ensures [s[0]] + (s[1..][..k] + s[1..][k + 1..]) == s[..k + 1] + s[k + 2..]
  {
    assert s[1..][..k] == s[1..k + 1] && s[1..][k + 1..] == s[k + 2..];
    assert [s[0]] + s[1..k + 1] == s[..k + 1];
  }

  /** Removal takes one matching element away when there is one. */
  lemma {:induction false} RemoveFirstCount(s: seq<Element>, sel: Selector)
    ensures CountIn(RemoveFirst(s, sel), sel) == if CountIn(s, sel) == 0 then 0 else CountIn(s, sel) - 1
  {
    if s != [] {
      RemoveFirstCount(s[1..], sel);
      if !Matches(sel, s[0]) {
        assert ([s[0]] + RemoveFirst(s[1..], sel))[1..] == RemoveFirst(s[1..], sel);
      }
    }
  }

  /** Removal by one tag name leaves the elements of another tag name alone. */
  lemma {:induction false} RemoveFirstOtherTag(s: seq<Element>, sel: Selector, other: Selector)
    requires sel.tag != other.tag
    ensures CountIn(RemoveFirst(s, sel), other) == CountIn(s, other)
  {
    if s != [] {
      RemoveFirstOtherTag(s[1..], sel, other);
      if !Matches(sel, s[0]) {
        assert ([s[0]] + RemoveFirst(s[1..], sel))[1..] == RemoveFirst(s[1..], sel);
      }
    }
  }

  lemma {:induction false} CountAppend(s: seq<Element>, x: Element, sel: Selector)
    ensures CountIn(s + [x], sel) == CountIn(s, sel) + if Matches(sel, x) then 1 else 0
  {
    if s == [] {
      assert [] + [x] == [x] && [x][1..] == [];
    } else {
      assert (s + [x])[1..] == s[1..] + [x];
      CountAppend(s[1..], x, sel);
    }
  }

  /** An element appended last is not what removal finds when it does not
      match, or when an earlier element does. */
  lemma {:induction false} RemoveFirstAppend(s: seq<Element>, x: Element, sel: Selector)
    requires CountIn(s, sel) > 0 || !Matches(sel, x)
    ensures RemoveFirst(s + [x], sel) == RemoveFirst(s, sel) + [x]
  {
    if s == [] {
      assert [] + [x] == [x] && [x][1..] == [];
    } else {
      assert (s + [x])[0] == s[0] && (s + [x])[1..] == s[1..] + [x];
      if Matches(sel, s[0]) {
        assert (s + [x])[1..] == s[1..] + [x];
      } else {
        RemoveFirstAppend(s[1..], x, sel);
      }
    }
  }

  // ---------------------------------------------------------------------------
  // The document

  datatype Doc = Doc(head: seq<Element>, body: seq<Element>)

  /** How many elements of the document match. */
  function DocCount(d: Doc, sel: Selector): nat
  {
    CountIn(d.head, sel) + CountIn(d.body, sel)
  }

  /** `document.querySelector(sel)?.remove()`: the head is searched first. */
  function RemoveFirstInDoc(d: Doc, sel: Selector): Doc
  {
    if CountIn(d.head, sel) > 0 then d.(head := RemoveFirst(d.head, sel))
    else d.(body := RemoveFirst(d.body, sel))
  }

  function AppendHead(d: Doc, e: Element): Doc
  {
    d.(head := d.head + [e])
  }

  function AppendBody(d: Doc, e: Element): Doc
  {
    d.(body := d.body + [e])
  }

  lemma RemoveFirstInDocCount(d: Doc, sel: Selector)
    ensures DocCount(d, sel) == 0 ==> RemoveFirstInDoc(d, sel) == d
    ensures DocCount(RemoveFirstInDoc(d, sel), sel) == if DocCount(d, sel) == 0 then 0 else DocCount(d, sel) - 1
  {
    RemoveFirstCount(d.head, sel);
    RemoveFirstCount(d.body, sel);
    if CountIn(d.head, sel) == 0 { RemoveFirstUnmatched(d.head, sel); }
    if CountIn(d.body, sel) == 0 { RemoveFirstUnmatched(d.body, sel); }
  }

  lemma RemoveFirstInDocOtherTag(d: Doc, sel: Selector, other: Selector)
    requires sel.tag != other.tag
    ensures DocCount(RemoveFirstInDoc(d, sel), other) == DocCount(d, other)
  {
    RemoveFirstOtherTag(d.head, sel, other);
    RemoveFirstOtherTag(d.body, sel, other);
  }

  /** Removing the first tag of a kind and appending a new one of that kind:
      a document with at most one such tag ends up with exactly one, the new
      one, and one with more keeps its number. */
  lemma ReplaceCount(d: Doc, sel: Selector, e: Element)
    requires Matches(sel, e)
    ensures var r := AppendHead(RemoveFirstInDoc(d, sel), e);
      && DocCount(r, sel) == (if DocCount(d, sel) == 0 then 1 else DocCount(d, sel))
      && r.head[|r.head| - 1] == e
  {
    var d1 := RemoveFirstInDoc(d, sel);
    RemoveFirstInDocCount(d, sel);
    CountAppend(d1.head, e, sel);
  }

  // ---------------------------------------------------------------------------
  // Operations, as functions of the document before them

  /** initializeSnippets (extension.js:102-117). When a record is missing the
      `reduce` throws after the old tag is gone, and nothing is appended. */
  function SnippetsDom(d: Doc, records: seq<Option<Snippet>>): Doc
  {
    var d1 := RemoveFirstInDoc(d, SnippetsSel);
    match SnippetsStyleText(records)
    case None => d1
    case Some(text) => AppendHead(d1, SnippetsTag(text))
  }

  /** injectColourScheme (extension.js:120-148). `None` is an undefined scheme,
      on which `Object.keys` throws; that error, like one from hexToRGB, is
      caught after both removals and before the append. */
  function SchemeDom(d: Doc, scheme: Option<Scheme>): Doc
  {
    var d1 := RemoveFirstInDoc(RemoveFirstInDoc(d, ColorsCssSel), SchemeSel);
    if scheme.None? then d1
    else
      match SchemeText(scheme.value)
      case Failure(_) => d1
      case Success(text) => AppendHead(d1, SchemeTag(text))
  }

  /** injectUserCSS (extension.js:154-173). */
  function UserCssDom(d: Doc, userCss: string): Doc
  {
    AppendHead(RemoveFirstInDoc(RemoveFirstInDoc(d, UserCssLinkSel), UserCssSel), UserCssTag(userCss))
  }

  /** initializeExtension (extension.js:76-95): nothing without a manifest or
      an extension URL, or when a raw-GitHub URL does not give four fields. */
  function ExtensionDom(d: Doc, m: Option<ExtensionManifest>): Doc
  {
    if m.None? || !Truthy(m.value.extensionURL) then d
    else
      match ExtensionScriptSrc(m.value.extensionURL.value)
      case None => d
      case Some(src) => AppendBody(d, ExtensionScript(src))
  }

  /** Every installed extension initialized in order (extension.js:294-295). */
  function ExtensionsDom(d: Doc, ms: seq<Option<ExtensionManifest>>): Doc
  {
    if ms == [] then d else ExtensionDom(ExtensionsDom(d, ms[..|ms| - 1]), ms[|ms| - 1])
  }

  /** The script an included entry becomes (extension.js:270-280). */
  function IncludeElement(script: string): Element
  {
    IncludedScript(IncludeScriptSrc(script))
  }

  /** The scripts a theme includes, in order (extension.js:269-281). */
  function IncludedScripts(includes: seq<string>): seq<Element>
  {
    MapSeq(IncludeElement, includes)
  }

  /** One marketplace script per included entry, in order, each loading the
      rewritten src of its entry. */
  lemma IncludedScriptsAt(includes: seq<string>)
    ensures |IncludedScripts(includes)| == |includes|
    ensures forall k :: 0 <= k < |includes| ==> IncludedScripts(includes)[k] == IncludedScript(IncludeScriptSrc(includes[k]))
  {
    forall k | 0 <= k < |includes|
      ensures IncludedScripts(includes)[k] == IncludedScript(IncludeScriptSrc(includes[k]))
    {
      MapSeqAt(IncludeElement, includes, k);
    }
  }

  /** The scheme step of initializeTheme (extension.js:241-250): the active
      scheme is injected when the theme has schemes at all; an active scheme
      name the schemes lack injects undefined. */
  function ThemeSchemeDom(d: Doc, t: ThemeManifest): Doc
  {
    if t.schemes.Some? then SchemeDom(d, Lookup(t.schemes.value, t.activeScheme)) else d
  }

  /** The included scripts appended to the body (extension.js:266-282). */
  function ScriptsDom(d: Doc, includes: seq<string>): Doc
  {
    d.(body := d.body + IncludedScripts(includes))
  }

  /** The steps of initializeTheme after the scheme (extension.js:252-282),
      on the document `x` the scheme step left: the removal of an old theme
      link, the theme's user.css and the included scripts. */
  function ThemeAfterScheme(x: Doc, t: ThemeManifest, fetched: string): Doc
  {
    ScriptsDom(UserCssDom(RemoveFirstInDoc(x, ThemeLinkSel), ThemeUserCss(t, fetched)), t.includes)
  }

  /** initializeTheme (extension.js:230-283), run to completion. */
  function ThemeDom(d: Doc, m: Option<ThemeManifest>, fetched: string): Doc
  {
    if m.None? then d else ThemeAfterScheme(ThemeSchemeDom(d, m.value), m.value, fetched)
  }

  /** The scheme a colour-shift tick injects: the value at the tick's index, or
      undefined when there is none (extension.js:194). */
  function SchemeAtTick(schemes: seq<Scheme>, t: nat): Option<Scheme>
  {
    if |schemes| > 0 then Some(schemes[t % |schemes|]) else None
  }

  /** Tick t of the loop over a theme's schemes injects the scheme of entry
      `t % N`, in key order; with no scheme it injects undefined. */
  lemma SchemeAtTickOfEntries(schemes: seq<(string, Scheme)>, t: nat)
    ensures |schemes| > 0 ==> SchemeAtTick(Values(schemes), t) == Some(schemes[t % |schemes|].1)
    ensures |schemes| == 0 ==> SchemeAtTick(Values(schemes), t) == None
  {
  }

  // ---------------------------------------------------------------------------
  // Properties

  /** After initializeSnippets with every record present, the head ends with
      the snippet style holding the concatenated snippets, and the document
      keeps a single snippet style if it had at most one. When a record is
      missing, the old style is gone and no new one is added. */
  lemma SnippetsSingleInstance(d: Doc, records: seq<Option<Snippet>>)
    ensures AllPresent(records) ==>
      var r := SnippetsDom(d, records);
      && DocCount(r, SnippetsSel) == (if DocCount(d, SnippetsSel) == 0 then 1 else DocCount(d, SnippetsSel))
      && r.head[|r.head| - 1] == SnippetsTag(SnippetsStyleText(records).value)
    ensures !AllPresent(records) ==>
      DocCount(SnippetsDom(d, records), SnippetsSel) == (if DocCount(d, SnippetsSel) == 0 then 0 else DocCount(d, SnippetsSel) - 1)
  {
    RemoveFirstInDocCount(d, SnippetsSel);
    if AllPresent(records) {
      ReplaceCount(d, SnippetsSel, SnippetsTag(SnippetsStyleText(records).value));
    }
  }

  /** A scheme every value of which hexToRGB accepts replaces the
      marketplace scheme tag: the head ends with it and the document keeps a
      single one if it had at most one. Spicetify's own colors.css link loses
      one element either way. */
  lemma SchemeSingleInstance(d: Doc, scheme: Scheme)
    requires SchemeText(scheme).Success?
    ensures var r := SchemeDom(d, Some(scheme));
      && DocCount(r, SchemeSel) == (if DocCount(d, SchemeSel) == 0 then 1 else DocCount(d, SchemeSel))
      && r.head[|r.head| - 1] == SchemeTag(SchemeText(scheme).value)
      && DocCount(r, ColorsCssSel) == (if DocCount(d, ColorsCssSel) == 0 then 0 else DocCount(d, ColorsCssSel) - 1)
  {
    var d1 := RemoveFirstInDoc(d, ColorsCssSel);
    var d2 := RemoveFirstInDoc(d1, SchemeSel);
    RemoveFirstInDocOtherTag(d, ColorsCssSel, SchemeSel);
    ReplaceCount(d1, SchemeSel, SchemeTag(SchemeText(scheme).value));
    RemoveFirstInDocCount(d, ColorsCssSel);
    RemoveFirstInDocOtherTag(d1, SchemeSel, ColorsCssSel);
    CountAppend(d2.head, SchemeTag(SchemeText(scheme).value), ColorsCssSel);
  }

  /** When the scheme is undefined or one of its values makes hexToRGB throw,
      both old scheme tags are already removed and nothing is appended. */
  lemma SchemeFailureAppendsNothing(d: Doc, scheme: Option<Scheme>)
    requires scheme.None? || SchemeText(scheme.value).Failure?
    ensures SchemeDom(d, scheme) == RemoveFirstInDoc(RemoveFirstInDoc(d, ColorsCssSel), SchemeSel)
    ensures DocCount(SchemeDom(d, scheme), SchemeSel) == if DocCount(d, SchemeSel) == 0 then 0 else DocCount(d, SchemeSel) - 1
  {
    RemoveFirstInDocOtherTag(d, ColorsCssSel, SchemeSel);
    RemoveFirstInDocCount(RemoveFirstInDoc(d, ColorsCssSel), SchemeSel);
  }

  /** injectUserCSS leaves the head ending with the given stylesheet and a
      single marketplace user.css tag if there was at most one; calling it
      again keeps that count. */
  lemma UserCssSingleInstance(d: Doc, userCss: string, again: string)
    ensures var r := UserCssDom(d, userCss);
      && DocCount(r, UserCssSel) == (if DocCount(d, UserCssSel) == 0 then 1 else DocCount(d, UserCssSel))
      && r.head[|r.head| - 1] == UserCssTag(userCss)
      && DocCount(UserCssDom(r, again), UserCssSel) == DocCount(r, UserCssSel)
  {
    var d1 := RemoveFirstInDoc(d, UserCssLinkSel);
    RemoveFirstInDocOtherTag(d, UserCssLinkSel, UserCssSel);
    ReplaceCount(d1, UserCssSel, UserCssTag(userCss));
    var r := UserCssDom(d, userCss);
    var r1 := RemoveFirstInDoc(r, UserCssLinkSel);
    RemoveFirstInDocOtherTag(r, UserCssLinkSel, UserCssSel);
    ReplaceCount(r1, UserCssSel, UserCssTag(again));
  }

  /** initializeExtension never touches the head. An extension at a raw
      GitHub URL gets a script loading the same file from jsDelivr. */
  lemma ExtensionOfRawUrl(d: Doc, f: Fields)
    requires WellFormed(f)
    ensures ExtensionDom(d, Some(ExtensionManifest(Some(RawUrl(f)))))
      == AppendBody(d, ExtensionScript(JsDelivrUrl(f.user, f.repo, f.branch, f.filePath)))
  {
    ExtensionSrcOfRawUrl(f);
    assert |RawUrl(f)| > 0 by { assert RawUrl(f)[..|RawPrefix|] == RawPrefix; }
  }

  /** A URL that mentions the raw host without matching the pattern adds no script. */
  lemma ExtensionOfUnmatchedUrl(d: Doc, url: string)
    requires Contains(url, RawHost) && GetParamsFromGithubRaw(url).user.None?
    ensures ExtensionDom(d, Some(ExtensionManifest(Some(url)))) == d
  {
  }

  /** Any other non-empty URL is loaded as it is. */
  lemma ExtensionOfOtherUrl(d: Doc, url: string)
    requires url != "" && !Contains(url, RawHost)
    ensures ExtensionDom(d, Some(ExtensionManifest(Some(url)))) == AppendBody(d, ExtensionScript(url))
  {
  }

  /** Each extension adds at most one script, at the end of the body, and the
      head stays as it was. */
  lemma {:induction false} ExtensionsAppendScripts(d: Doc, ms: seq<Option<ExtensionManifest>>)
    ensures var r := ExtensionsDom(d, ms);
      && r.head == d.head && d.body <= r.body && |r.body| <= |d.body| + |ms|
  {
    if ms != [] {
      ExtensionsAppendScripts(d, ms[..|ms| - 1]);
      var r0 := ExtensionsDom(d, ms[..|ms| - 1]);
      var r := ExtensionsDom(d, ms);
      if r != r0 {
        assert r.body == r0.body + [r.body[|r.body| - 1]];
        assert r.body[..|d.body|] == r0.body[..|d.body|];
      }
    }
  }

  /** After initializeTheme the head ends with the rewritten user.css of the
      theme, and the body ends with one marketplace script per included
      script, in order, loading IncludeScriptSrc of it. */
  lemma ThemeInjectsCssAndScripts(d: Doc, m: ThemeManifest, fetched: string)
    ensures var r := ThemeDom(d, Some(m), fetched);
      && |r.head| > 0 && r.head[|r.head| - 1] == UserCssTag(ThemeUserCss(m, fetched))
      && EndsWithIncludes(r.body, m.includes)
  {
    AfterSchemeInjectsCssAndScripts(ThemeSchemeDom(d, m), m, fetched);
  }

  /** The body ends with one marketplace script per include, in order, each
      loading IncludeScriptSrc of its include. */
  predicate EndsWithIncludes(body: seq<Element>, includes: seq<string>)
  {
    && |includes| <= |body|
    && forall k :: 0 <= k < |includes| ==>
         body[|body| - |includes| + k] == IncludedScript(IncludeScriptSrc(includes[k]))
  }

  lemma AfterSchemeInjectsCssAndScripts(x: Doc, t: ThemeManifest, fetched: string)
    ensures var r := ThemeAfterScheme(x, t, fetched);
      && |r.head| > 0 && r.head[|r.head| - 1] == UserCssTag(ThemeUserCss(t, fetched))
      && EndsWithIncludes(r.body, t.includes)
  {
    var y := UserCssDom(RemoveFirstInDoc(x, ThemeLinkSel), ThemeUserCss(t, fetched));
    UserCssDomLast(RemoveFirstInDoc(x, ThemeLinkSel), ThemeUserCss(t, fetched));
    ScriptsDomAt(y, t.includes);
  }

  /** The rewritten user.css tag ends the head. */
  lemma UserCssDomLast(d: Doc, userCss: string)
    ensures var r := UserCssDom(d, userCss);
      |r.head| > 0 && r.head[|r.head| - 1] == UserCssTag(userCss)
  {
  }

  /** The included scripts follow the old body, one per include, in order. */
  lemma ScriptsDomAt(d: Doc, includes: seq<string>)
    ensures var r := ScriptsDom(d, includes);
      && r.head == d.head && |r.body| == |d.body| + |includes| && r.body[..|d.body|] == d.body
      && forall k :: 0 <= k < |includes| ==>
           r.body[|d.body| + k] == IncludedScript(IncludeScriptSrc(includes[k]))
  {
    IncludedScriptsAt(includes);
  }

  /** A last head element the selector does not match stays last. */
  lemma RemoveFirstInDocKeepsLast(d: Doc, sel: Selector)
    requires |d.head| > 0 && !Matches(sel, d.head[|d.head| - 1])
    ensures var r := RemoveFirstInDoc(d, sel);
      |r.head| > 0 && r.head[|r.head| - 1] == d.head[|d.head| - 1]
  {
    if CountIn(d.head, sel) > 0 {
      var init, last := d.head[..|d.head| - 1], d.head[|d.head| - 1];
      assert init + [last] == d.head;
      RemoveFirstAppend(init, last, sel);
    }
  }

  /** The style steps after the scheme keep a scheme tag that ends the head:
      neither the theme link removal nor injectUserCSS takes it, and the
      user.css tag comes right after it. */
  lemma StylesKeepSchemeTag(d: Doc, text: string, userCss: string)
    requires |d.head| > 0 && d.head[|d.head| - 1] == SchemeTag(text)
    ensures EndsWithTwo(UserCssDom(RemoveFirstInDoc(d, ThemeLinkSel), userCss).head, SchemeTag(text), UserCssTag(userCss))
  {
    assert !Matches(UserCssSel, SchemeTag(text)) by {
      assert "marketplaceUserCSS" in UserCssSel.classes;
      assert |"marketplaceUserCSS"| != |"marketplaceCSS"| && |"marketplaceUserCSS"| != |"marketplaceScheme"|;
    }
    var d1 := RemoveFirstInDoc(d, ThemeLinkSel);
    RemoveFirstInDocKeepsLast(d, ThemeLinkSel);
    var d2 := RemoveFirstInDoc(d1, UserCssLinkSel);
    RemoveFirstInDocKeepsLast(d1, UserCssLinkSel);
    RemoveFirstInDocKeepsLast(d2, UserCssSel);
  }

  /** A scheme tag that ends the head after the scheme step of initializeTheme
      (extension.js:243) outlives the later theme link removal and
      injectUserCSS: the head ends with it followed by the user.css tag. */
  lemma ThemeKeepsSchemeTag(d: Doc, m: ThemeManifest, fetched: string, text: string)
    requires var x := ThemeSchemeDom(d, m); |x.head| > 0 && x.head[|x.head| - 1] == SchemeTag(text)
    ensures EndsWithTwo(ThemeDom(d, Some(m), fetched).head, SchemeTag(text), UserCssTag(ThemeUserCss(m, fetched)))
  {
    AfterSchemeKeepsSchemeTag(ThemeSchemeDom(d, m), m, fetched, text);
  }

  /** The last two elements of `s` are `a` and then `b`. */
  predicate EndsWithTwo(s: seq<Element>, a: Element, b: Element)
  {
    |s| >= 2 && s[|s| - 2] == a && s[|s| - 1] == b
  }

  lemma AfterSchemeKeepsSchemeTag(x: Doc, t: ThemeManifest, fetched: string, text: string)
    requires |x.head| > 0 && x.head[|x.head| - 1] == SchemeTag(text)
    ensures EndsWithTwo(ThemeAfterScheme(x, t, fetched).head, SchemeTag(text), UserCssTag(ThemeUserCss(t, fetched)))
  {
    var y := UserCssDom(RemoveFirstInDoc(x, ThemeLinkSel), ThemeUserCss(t, fetched));
    StylesKeepSchemeTag(x, text, ThemeUserCss(t, fetched));
    assert ThemeAfterScheme(x, t, fetched).head == y.head;
  }

  /** The scheme step of initializeTheme, for an active scheme every value of
      which hexToRGB accepts, leaves the head ending with its tag. */
  lemma ThemeSchemeEndsWithTag(d: Doc, m: ThemeManifest, scheme: Scheme)
    requires m.schemes.Some? && Lookup(m.schemes.value, m.activeScheme) == Some(scheme)
    requires SchemeText(scheme).Success?
    ensures var x := ThemeSchemeDom(d, m);
      |x.head| > 0 && x.head[|x.head| - 1] == SchemeTag(SchemeText(scheme).value)
  {
    SchemeSingleInstance(d, scheme);
  }

  /** A theme without a manifest leaves the document alone. */
  lemma ThemeWithoutManifest(d: Doc, fetched: string)
    ensures ThemeDom(d, None, fetched) == d
  {
  }

  /** The transition style appended at the end of the body before a scheme
      swap, and removed after it, leaves no trace: the tick has the effect of
      the swap alone. */
  lemma ShiftStyleLeavesNoTrace(d: Doc, scheme: Option<Scheme>)
    ensures var r := SchemeDom(d, scheme);
      SchemeDom(AppendBody(d, ShiftStyle), scheme) == AppendBody(r, ShiftStyle)
  {
    assert !Matches(SchemeSel, ShiftStyle) by {
      assert "marketplaceCSS"[0] != "colorShift-style"[0];
      assert "marketplaceCSS" !in ShiftStyle.classes;
    }
    var d1 := RemoveFirstInDoc(d, ColorsCssSel);
    if CountIn(d.head, ColorsCssSel) == 0 {
      RemoveFirstAppend(d.body, ShiftStyle, ColorsCssSel);
    }
    assert RemoveFirstInDoc(AppendBody(d, ShiftStyle), ColorsCssSel) == AppendBody(d1, ShiftStyle);
    if CountIn(d1.head, SchemeSel) == 0 {
      RemoveFirstAppend(d1.body, ShiftStyle, SchemeSel);
    }
    assert RemoveFirstInDoc(AppendBody(d1, ShiftStyle), SchemeSel) == AppendBody(RemoveFirstInDoc(d1, SchemeSel), ShiftStyle);
  }

  // ---------------------------------------------------------------------------
  // The live document

  class Document {
    var head: seq<Element>
    var body: seq<Element>

    constructor (head: seq<Element>, body: seq<Element>)
      ensures this.head == head && this.body == body
    {
      this.head := head;
      this.body := body;
    }

    function State(): Doc
      reads this
    {
      Doc(head, body)
    }

    /** `document.querySelector(sel)`, then `.remove()` on what it found. */
    method RemoveFirstMatch(sel: Selector)
      modifies this
      ensures State() == RemoveFirstInDoc(old(State()), sel)
    {
      if CountIn(head, sel) > 0 {
        head := RemoveFirst(head, sel);
      } else {
        body := RemoveFirst(body, sel);
      }
    }

    method AppendToHead(e: Element)
      modifies this
      ensures State() == AppendHead(old(State()), e)
    {
      head := head + [e];
    }

    method AppendToBody(e: Element)
      modifies this
      ensures State() == AppendBody(old(State()), e)
    {
      body := body + [e];
    }

    /** `thrown` reports the TypeError of a missing snippet record. */
    method InitializeSnippets(records: seq<Option<Snippet>>) returns (thrown: bool)
      modifies this
      ensures thrown <==> !AllPresent(records)
      ensures State() == SnippetsDom(old(State()), records)
    {
      RemoveFirstMatch(SnippetsSel);
      var styleContent := SnippetsStyleText(records);
      if styleContent.None? {
        return true;
      }
      AppendToHead(SnippetsTag(styleContent.value));
      thrown := false;
    }

    method InjectColourScheme(scheme: Option<Scheme>)
      modifies this
      ensures State() == SchemeDom(old(State()), scheme)
    {
      RemoveFirstMatch(ColorsCssSel);
      RemoveFirstMatch(SchemeSel);
      if scheme.None? {
        return;
      }
      var injectStr := BuildSchemeText(scheme.value);
      if injectStr.Failure? {
        return;
      }
      AppendToHead(SchemeTag(injectStr.value));
    }

    method InjectUserCss(userCss: string)
      modifies this
      ensures State() == UserCssDom(old(State()), userCss)
    {
      RemoveFirstMatch(UserCssLinkSel);
      RemoveFirstMatch(UserCssSel);
      AppendToHead(UserCssTag(userCss));
    }

    method InitializeExtension(m: Option<ExtensionManifest>)
      modifies this
      ensures State() == ExtensionDom(old(State()), m)
    {
      if m.None? || !Truthy(m.value.extensionURL) {
        return;
      }
      var extensionURL := m.value.extensionURL.value;
      var src := extensionURL;
      if Contains(src, RawHost) {
        var p := GetParamsFromGithubRaw(extensionURL);
        if !Truthy(p.user) || !Truthy(p.repo) || !Truthy(p.branch) || !Truthy(p.filePath) {
          return;
        }
        src := JsDelivrUrl(p.user.value, p.repo.value, p.branch.value, p.filePath.value);
      }
      AppendToBody(ExtensionScript(src));
    }

    /** The `forEach` over the installed extensions' manifests. */
    method InitializeExtensions(ms: seq<Option<ExtensionManifest>>)
      modifies this
      ensures State() == ExtensionsDom(old(State()), ms)
    {
      for k := 0 to |ms|
        invariant State() == ExtensionsDom(old(State()), ms[..k])
      {
        assert ms[..k + 1][..k] == ms[..k];
        InitializeExtension(ms[k]);
      }
      assert ms[..|ms|] == ms;
    }

    /** initializeTheme with the stylesheet text its parseCSS fetches; `loop`
        is the colour-shift loop it starts when that setting is on. */
    method InitializeTheme(m: Option<ThemeManifest>, fetched: string, colourShiftOn: bool) returns (loop: ShiftLoop?)
      modifies this
      ensures State() == ThemeDom(old(State()), m, fetched)
      ensures loop != null <==> m.Some? && m.value.schemes.Some? && colourShiftOn
      ensures loop != null ==> fresh(loop) && loop.Valid() && loop.ticks == 0 && loop.count == |m.value.schemes.value|
    {
      loop := null;
      if m.None? {
        return;
      }
      var t := m.value;
      if t.schemes.Some? {
        InjectColourScheme(Lookup(t.schemes.value, t.activeScheme));
        if colourShiftOn {
          loop := new ShiftLoop(|t.schemes.value|);
        }
      }
      RemoveFirstMatch(ThemeLinkSel);
      var userCss := ParseCss(t, fetched);
      InjectUserCss(userCss);
      IncludeScripts(t.includes);
    }

    /** The loop over a theme's included scripts: one marketplace script per
        entry (extension.js:266-282). */
    method IncludeScripts(includes: seq<string>)
      modifies this
      ensures State() == ScriptsDom(old(State()), includes)
    {
      for k := 0 to |includes|
        invariant head == old(head)
        invariant body == old(body) + IncludedScripts(includes[..k])
      {
        var src := IncludeScriptSrc(includes[k]);
        AppendToBody(IncludedScript(src));
        assert includes[..k + 1][..k] == includes[..k];
      }
      assert includes[..|includes|] == includes;
    }

    /** One run of the colour-shift interval callback (extension.js:181-197)
        over the theme's schemes, given as their entries in key order. */
    method ColourShiftTick(shift: ShiftLoop, schemes: seq<(string, Scheme)>)
      requires shift.Valid() && shift.count == |schemes|
      modifies this, shift
      ensures shift.Valid() && shift.ticks == old(shift.ticks) + 1
      ensures State() == SchemeDom(old(State()), SchemeAtTick(Values(schemes), old(shift.ticks)))
    {
      var used := shift.Tick();
      ghost var start := State();
      AppendToBody(ShiftStyle);
      var values := Values(schemes);
      var scheme := if used.Some? then Some(values[used.value]) else None;
      InjectColourScheme(scheme);
      ShiftStyleLeavesNoTrace(start, scheme);
      body := body[..|body| - 1];
      assert State() == SchemeDom(start, scheme);
    }
  }
}
