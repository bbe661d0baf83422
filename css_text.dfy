/** The CSS text extension.js builds: the snippet style text
    (extension.js:107-112), the `:root` colour-scheme declarations
    (extension.js:135-142) and the rewrite of relative `url(...)` references in
    a theme's user.css against its assets directory (extension.js:200-228). */
module CssText {
  import opened Wrappers
  import opened Strings
  import opened HexColour
  import opened GithubRaw
  import opened Manifests

  // ---------------------------------------------------------------------------
  // Snippets

  /** One snippet's contribution: a comment naming it, then its code. */
  function SnippetBlock(s: Snippet): string
  {
    "/* " + s.title + " - " + s.description + " */\n" + s.code + "\n"
  }

  /** The `reduce` over the snippets, starting from "". */
  function SnippetsText(snippets: seq<Snippet>): string
  {
    if snippets == [] then ""
    else SnippetsText(snippets[..|snippets| - 1]) + SnippetBlock(snippets[|snippets| - 1])
  }

  /** The text of a concatenation of snippet lists is the concatenation of their texts. */
  lemma {:induction false} SnippetsTextAppend(a: seq<Snippet>, b: seq<Snippet>)
    ensures SnippetsText(a + b) == SnippetsText(a) + SnippetsText(b)
    decreases |b|
  {
    if b == [] {
      assert a + b == a;
    } else {
      var b' := b[..|b| - 1];
      assert (a + b)[..|a + b| - 1] == a + b';
      assert (a + b)[|a + b| - 1] == b[|b| - 1];
      SnippetsTextAppend(a, b');
      calc {
        SnippetsText(a + b);
        SnippetsText(a + b') + SnippetBlock(b[|b| - 1]);
        SnippetsText(a) + SnippetsText(b') + SnippetBlock(b[|b| - 1]);
        SnippetsText(a) + (SnippetsText(b') + SnippetBlock(b[|b| - 1]));
      }
    }
  }

  /** The text is the blocks in order: block k starts right after the text of snippets 0..k-1. */
  lemma SnippetBlockInPlace(snippets: seq<Snippet>, k: nat)
    requires k < |snippets|
    ensures OccursAt(SnippetsText(snippets), SnippetBlock(snippets[k]), |SnippetsText(snippets[..k])|)
  {
    assert snippets == snippets[..k] + [snippets[k]] + snippets[k + 1..];
    SnippetsTextAppend(snippets[..k] + [snippets[k]], snippets[k + 1..]);
    SnippetsTextAppend(snippets[..k], [snippets[k]]);
    assert [snippets[k]][..0] == [];
  }

  predicate AllPresent(records: seq<Option<Snippet>>)
  {
    forall k :: 0 <= k < |records| ==> records[k].Some?
  }

  /** The snippets of records that are all present. */
  function Present(records: seq<Option<Snippet>>): seq<Snippet>
    requires AllPresent(records)
  {
    seq(|records|, k requires 0 <= k < |records| => records[k].value)
  }

  /** The snippet records as read from storage; a missing record makes the
      `reduce` throw a TypeError on `snippet.title`, giving None. */
  function SnippetsStyleText(records: seq<Option<Snippet>>): Option<string>
  {
    if AllPresent(records) then Some(SnippetsText(Present(records))) else None
  }

  /** The style text is missing exactly when some record is. */
  lemma SnippetsStyleTextThrows(records: seq<Option<Snippet>>)
    ensures SnippetsStyleText(records).None? <==> exists k :: 0 <= k < |records| && records[k].None?
  {
  }

  /** With every record present, record k's block starts right after the
      style text of the records before it. */
  lemma SnippetRecordInPlace(records: seq<Option<Snippet>>, k: nat)
    requires AllPresent(records) && k < |records|
    ensures SnippetsStyleText(records).Some? && SnippetsStyleText(records[..k]).Some?
    ensures OccursAt(SnippetsStyleText(records).value, SnippetBlock(records[k].value), |SnippetsStyleText(records[..k]).value|)
  {
    var ps := Present(records);
    assert AllPresent(records[..k]);
    assert Present(records[..k]) == ps[..k];
    SnippetBlockInPlace(ps, k);
  }

  // ---------------------------------------------------------------------------
  // Colour scheme

  /** How a number `parseInt` returned is written. */
  function ChannelText(c: Channel): string
  {
    match c
    case NaN => "NaN"
    case Num(n) => IntToDecimal(n)
  }

  /** `${array}`: the elements' texts joined with commas. */
  function ChannelsText(cs: seq<Channel>): string
  {
    if cs == [] then ""
    else if |cs| == 1 then ChannelText(cs[0])
    else ChannelText(cs[0]) + "," + ChannelsText(cs[1..])
  }

  function HexDeclaration(key: string, value: string): string
  {
    "--spice-" + key + ": #" + value + ";"
  }

  function RgbDeclaration(key: string, cs: seq<Channel>): string
  {
    "--spice-rgb-" + key + ": " + ChannelsText(cs) + ";"
  }

  /** The two declarations one scheme entry adds, or what hexToRGB threw. */
  function EntryText(key: string, value: string): Result<string, HexError>
  {
    match HexToRGB(value)
    case Failure(e) => Failure(e)
    case Success(cs) => Success(HexDeclaration(key, value) + RgbDeclaration(key, cs))
  }

  /** `f` applied to each element, in order. */
  function MapSeq<A, B>(f: A -> B, s: seq<A>): (r: seq<B>)
    ensures |r| == |s|
  {
    if s == [] then [] else MapSeq(f, s[..|s| - 1]) + [f(s[|s| - 1])]
  }

  lemma {:induction false} MapSeqAppend<A, B>(f: A -> B, a: seq<A>, b: seq<A>)
    ensures MapSeq(f, a + b) == MapSeq(f, a) + MapSeq(f, b)
    decreases |b|
  {
    if b == [] {
      assert a + b == a;
    } else {
      var b' := b[..|b| - 1];
      assert (a + b)[..|a + b| - 1] == a + b';
      assert (a + b)[|a + b| - 1] == b[|b| - 1];
      MapSeqAppend(f, a, b');
    }
  }

  lemma MapSeqAt<A, B>(f: A -> B, s: seq<A>, k: nat)
    requires k < |s|
    ensures MapSeq(f, s)[k] == f(s[k])
  {
    var pre, x, post := s[..k], s[k], s[k + 1..];
    assert s == pre + [x] + post;
    MapSeqAppend(f, pre + [x], post);
    MapSeqAppend(f, pre, [x]);
    assert [x][..0] == [];
  }

  /** The entry texts of a scheme, in key order. */
  function EntryTexts(scheme: Scheme): (r: seq<Result<string, HexError>>)
    ensures |r| == |scheme|
  {
    MapSeq((entry: (string, string)) => EntryText(entry.0, entry.1), scheme)
  }

  lemma EntryTextsAppend(a: Scheme, b: Scheme)
    ensures EntryTexts(a + b) == EntryTexts(a) + EntryTexts(b)
  {
    MapSeqAppend((entry: (string, string)) => EntryText(entry.0, entry.1), a, b);
  }

  /** Entry text k is that of the k-th key. */
  lemma EntryTextAt(scheme: Scheme, k: nat)
    requires k < |scheme|
    ensures EntryTexts(scheme)[k] == EntryText(scheme[k].0, scheme[k].1)
  {
    MapSeqAt((entry: (string, string)) => EntryText(entry.0, entry.1), scheme, k);
  }

  /** The `+=` of texts in order; the first failure ends it. */
  function JoinTexts(rs: seq<Result<string, HexError>>): Result<string, HexError>
  {
    if rs == [] then Success("")
    else
      match JoinTexts(rs[..|rs| - 1])
      case Failure(e) => Failure(e)
      case Success(prefix) =>
        match rs[|rs| - 1]
        case Failure(e) => Failure(e)
        case Success(t) => Success(prefix + t)
  }

  /** The declarations of all entries of a scheme. */
  function SchemeBody(scheme: Scheme): Result<string, HexError>
  {
    JoinTexts(EntryTexts(scheme))
  }

  /** The text of the scheme tag, or what hexToRGB threw. */
  function SchemeText(scheme: Scheme): Result<string, HexError>
  {
    match SchemeBody(scheme)
    case Failure(e) => Failure(e)
    case Success(body) => Success(":root {" + body + "}")
  }

  /** Once a prefix of the texts fails, the whole join fails the same way. */
  lemma {:induction false} JoinPrefixFailure(rs: seq<Result<string, HexError>>, n: nat)
    requires n <= |rs| && JoinTexts(rs[..n]).Failure?
    ensures JoinTexts(rs) == JoinTexts(rs[..n])
    decreases |rs| - n
  {
    if n == |rs| {
      assert rs[..n] == rs;
    } else {
      assert rs[..n + 1][..n] == rs[..n];
      JoinPrefixFailure(rs, n + 1);
    }
  }

  /** The join succeeds exactly when every text does. */
  lemma {:induction false} JoinSucceedsIff(rs: seq<Result<string, HexError>>)
    ensures JoinTexts(rs).Success? <==> forall k :: 0 <= k < |rs| ==> rs[k].Success?
  {
    if rs != [] {
      var init := rs[..|rs| - 1];
      JoinSucceedsIff(init);
      assert forall k :: 0 <= k < |init| ==> init[k] == rs[k];
    }
  }

  /** The join fails with the error of the first text that fails. */
  lemma JoinFirstFailure(rs: seq<Result<string, HexError>>, n: nat)
    requires n < |rs| && rs[n].Failure? && forall k :: 0 <= k < n ==> rs[k].Success?
    ensures JoinTexts(rs) == Failure(rs[n].error)
  {
    var pre := rs[..n];
    JoinSucceedsIff(pre);
    assert rs[..n + 1][..n] == pre;
    JoinPrefixFailure(rs, n + 1);
  }

  /** Joining a concatenation concatenates the joins. */
  lemma {:induction false} JoinAppend(a: seq<Result<string, HexError>>, b: seq<Result<string, HexError>>)
    requires JoinTexts(a).Success? && JoinTexts(b).Success?
    ensures JoinTexts(a + b) == Success(JoinTexts(a).value + JoinTexts(b).value)
    decreases |b|
  {
    if b == [] {
      assert a + b == a;
      assert JoinTexts(a).value + "" == JoinTexts(a).value;
    } else {
      var b' := b[..|b| - 1];
      assert (a + b)[..|a + b| - 1] == a + b';
      assert (a + b)[|a + b| - 1] == b[|b| - 1];
      JoinAppend(a, b');
      var t := b[|b| - 1].value;
      var x, y := JoinTexts(a).value, JoinTexts(b').value;
      assert JoinTexts(b) == Success(y + t);
      assert JoinTexts(a + b) == Success(x + y + t);
      assert x + y + t == x + (y + t);
    }
  }

  /** `injectStr` built by `+=` over the scheme's keys (extension.js:135-142). */
  method BuildSchemeText(scheme: Scheme) returns (r: Result<string, HexError>)
    ensures r == SchemeText(scheme)
  {
    var injectStr := ":root {";
    for k := 0 to |scheme|
      invariant JoinTexts(EntryTexts(scheme)[..k]).Success?
      invariant injectStr == ":root {" + JoinTexts(EntryTexts(scheme)[..k]).value
    {
      var (key, value) := scheme[k];
      SchemeStep(scheme, k, injectStr);
      injectStr := injectStr + HexDeclaration(key, value);
      var rgb := HexToRGB(value);
      if rgb.Failure? {
        return Failure(rgb.error);
      }
      injectStr := injectStr + RgbDeclaration(key, rgb.value);
    }
    assert EntryTexts(scheme)[..|scheme|] == EntryTexts(scheme);
    r := Success(injectStr + "}");
  }

  /** One turn of the loop of BuildSchemeText. */
  lemma SchemeStep(scheme: Scheme, k: nat, injectStr: string)
    requires k < |scheme| && JoinTexts(EntryTexts(scheme)[..k]).Success?
    requires injectStr == ":root {" + JoinTexts(EntryTexts(scheme)[..k]).value
    ensures HexToRGB(scheme[k].1).Failure? ==> SchemeText(scheme) == Failure(HexToRGB(scheme[k].1).error)
    ensures HexToRGB(scheme[k].1).Success? ==>
      JoinTexts(EntryTexts(scheme)[..k + 1]).Success? &&
      injectStr + HexDeclaration(scheme[k].0, scheme[k].1) + RgbDeclaration(scheme[k].0, HexToRGB(scheme[k].1).value)
        == ":root {" + JoinTexts(EntryTexts(scheme)[..k + 1]).value
  {
    var rs := EntryTexts(scheme);
    EntryTextAt(scheme, k);
    assert rs[..k + 1][..k] == rs[..k];
    assert rs[..k + 1][k] == rs[k];
    var prefix := JoinTexts(rs[..k]).value;
    var e := EntryText(scheme[k].0, scheme[k].1);
    if e.Failure? {
      JoinPrefixFailure(rs, k + 1);
    } else {
      var h, g := HexDeclaration(scheme[k].0, scheme[k].1), RgbDeclaration(scheme[k].0, HexToRGB(scheme[k].1).value);
      assert e.value == h + g;
      assert JoinTexts(rs[..k + 1]).value == prefix + (h + g);
      assert injectStr + h + g == ":root {" + (prefix + (h + g));
    }
  }

  /** The scheme tag is built exactly when every value is accepted by hexToRGB. */
  lemma SchemeSucceedsIff(scheme: Scheme)
    ensures SchemeText(scheme).Success? <==> forall k :: 0 <= k < |scheme| ==> HexToRGB(scheme[k].1).Success?
  {
    var rs := EntryTexts(scheme);
    JoinSucceedsIff(rs);
    forall k | 0 <= k < |scheme| ensures rs[k].Success? <==> HexToRGB(scheme[k].1).Success? {
      EntryTextAt(scheme, k);
    }
  }

  /** Otherwise the scheme fails with the error of the first value hexToRGB refuses. */
  lemma SchemeFirstError(scheme: Scheme, n: nat)
    requires n < |scheme| && HexToRGB(scheme[n].1).Failure?
    requires forall k :: 0 <= k < n ==> HexToRGB(scheme[k].1).Success?
    ensures SchemeText(scheme) == Failure(HexToRGB(scheme[n].1).error)
  {
    var rs := EntryTexts(scheme);
    forall k | 0 <= k < n ensures rs[k].Success? { EntryTextAt(scheme, k); }
    EntryTextAt(scheme, n);
    JoinFirstFailure(rs, n);
  }

  /** The declarations of a concatenated scheme are those of its parts, in order,
      inside one `:root { ... }`. */
  lemma SchemeTextAppend(a: Scheme, b: Scheme)
    requires SchemeBody(a).Success? && SchemeBody(b).Success?
    ensures SchemeText(a + b) == Success(":root {" + SchemeBody(a).value + SchemeBody(b).value + "}")
  {
    var ea, eb := EntryTexts(a), EntryTexts(b);
    EntryTextsAppend(a, b);
    JoinAppend(ea, eb);
    var x, y := JoinTexts(ea).value, JoinTexts(eb).value;
    assert ":root {" + (x + y) + "}" == ":root {" + x + y + "}";
  }

  /** The text of a one-entry scheme: its two declarations inside `:root { ... }`. */
  lemma SingleEntryScheme(key: string, value: string)
    ensures SchemeText([(key, value)]).Success? <==> HexToRGB(value).Success?
    ensures SchemeText([(key, value)]).Success? ==>
      SchemeText([(key, value)]).value == ":root {" + EntryText(key, value).value + "}"
  {
    var rs := EntryTexts([(key, value)]);
    assert [(key, value)][..0] == [];
    var e := EntryText(key, value);
    assert rs == [e];
    assert rs[..0] == [];
    assert JoinTexts(rs[..0]) == Success("");
    assert SchemeBody([(key, value)]) == JoinTexts(rs);
    if e.Success? {
      assert "" + e.value == e.value;
      assert JoinTexts(rs) == Success(e.value);
    } else {
      assert JoinTexts(rs) == Failure(e.error);
    }
  }

  lemma ChannelsTextOfTwo(a: nat, b: nat)
    ensures ChannelsText([Num(a), Num(b)]) == NatToDecimal(a) + "," + NatToDecimal(b)
  {
    assert [Num(a), Num(b)][1..] == [Num(b)];
  }

  /** Three numbers are written in decimal, separated by commas. */
  lemma ChannelsTextOfNumbers(a: nat, b: nat, c: nat)
    ensures ChannelsText([Num(a), Num(b), Num(c)]) == NatToDecimal(a) + "," + (NatToDecimal(b) + "," + NatToDecimal(c))
  {
    assert [Num(a), Num(b), Num(c)][1..] == [Num(b), Num(c)];
    ChannelsTextOfTwo(b, c);
  }

  /** The entry text for a 6-digit hex colour: the colour, then its three
      channel values (ChannelsTextOfNumbers). */
  lemma EntryOfSixDigitColour(key: string, value: string)
    requires |value| == 6 && AllHex(value)
    ensures EntryText(key, value) == Success(HexDeclaration(key, value) + RgbDeclaration(key,
      [Num(PairValue(value[0], value[1])), Num(PairValue(value[2], value[3])), Num(PairValue(value[4], value[5]))]))
  {
    SixDigitChannels(value);
  }

  // ---------------------------------------------------------------------------
  // url(...) references in a theme's user.css

  /** The class `['|"]` of the pattern `url\(['|"](?<path>.+?)['|"]\)`. */
  predicate IsQuote(c: char)
  {
    c == '\'' || c == '|' || c == '"'
  }

  /** `css` holds `url(`, a quote, `p`, a quote and `)` starting at index `j`. */
  predicate UrlCallAt(css: string, j: nat, p: string)
  {
    j + 7 + |p| <= |css| && css[j..j + 4] == "url(" && IsQuote(css[j + 4])
    && css[j + 5..j + 5 + |p|] == p && IsQuote(css[j + 5 + |p|]) && css[j + 6 + |p|] == ')'
  }

  /** A slice without line terminators: so is every slice inside it. */
  lemma NoLineTerminatorSlice(s: string, a: nat, b: nat, c: nat, d: nat)
    requires a <= b <= c <= d <= |s| && NoLineTerminator(s[a..d])
    ensures NoLineTerminator(s[b..c])
  {
    forall k | 0 <= k < c - b ensures !IsLineTerminator(s[b..c][k]) {
      assert s[b..c][k] == s[a..d][k + b - a];
    }
  }

  /** A slice without line terminators extended by one more such character. */
  lemma NoLineTerminatorExtend(s: string, a: nat, b: nat)
    requires a <= b < |s| && NoLineTerminator(s[a..b]) && !IsLineTerminator(s[b])
    ensures NoLineTerminator(s[a..b + 1])
  {
    var t := s[a..b + 1];
    forall k | 0 <= k < |t| ensures !IsLineTerminator(t[k]) {
      if k < b - a { assert t[k] == s[a..b][k]; }
    }
  }

  /** The lazy `.+?`: the least end `e >= j` of a path starting at `start`
      such that a quote and `)` follow; the path may not cross a line terminator. */
  function CloseFrom(css: string, start: nat, j: nat): (r: Option<nat>)
    requires start < j && j - 1 <= |css| && NoLineTerminator(css[start..j - 1])
    decreases |css| + 1 - j
    ensures r.Some? ==> j <= r.value && r.value + 2 <= |css| && NoLineTerminator(css[start..r.value])
    ensures r.Some? ==> IsQuote(css[r.value]) && css[r.value + 1] == ')'
  {
    if j > |css| || IsLineTerminator(css[j - 1]) then None
    else
      NoLineTerminatorExtend(css, start, j - 1);
      if j + 1 < |css| && IsQuote(css[j]) && css[j + 1] == ')' then Some(j)
      else CloseFrom(css, start, j + 1)
  }

  /** CloseFrom is the lazy choice: no earlier end is followed by a quote and
      `)`, and None means that no single-line path from `start` is. */
  lemma {:induction false} CloseFromLeast(css: string, start: nat, j: nat)
    requires start < j && j - 1 <= |css| && NoLineTerminator(css[start..j - 1])
    decreases |css| + 1 - j
    ensures var r := CloseFrom(css, start, j);
      && (r.Some? ==> forall m :: j <= m < r.value ==> !(IsQuote(css[m]) && css[m + 1] == ')'))
      && (r.None? ==> forall e :: j <= e && e + 2 <= |css| && NoLineTerminator(css[start..e]) ==> !(IsQuote(css[e]) && css[e + 1] == ')'))
  {
    if j <= |css| {
      if IsLineTerminator(css[j - 1]) {
        forall e | j <= e && e + 2 <= |css| ensures !NoLineTerminator(css[start..e]) {
          assert css[start..e][j - 1 - start] == css[j - 1];
        }
      } else {
        NoLineTerminatorExtend(css, start, j - 1);
        if !(j + 1 < |css| && IsQuote(css[j]) && css[j + 1] == ')') {
          CloseFromLeast(css, start, j + 1);
        }
      }
    }
  }

  /** The end of the path of a `url(...)` match starting at index `i`: the
      first quote followed by `)` after a non-empty single-line path. */
  function UrlMatchAt(css: string, i: nat): (r: Option<nat>)
    requires i <= |css|
    ensures r.Some? ==> i + 6 <= r.value && r.value + 2 <= |css| && UrlCallAt(css, i, css[i + 5..r.value])
    ensures r.Some? ==> NoLineTerminator(css[i + 5..r.value])
  {
    if i + 5 <= |css| && css[i..i + 4] == "url(" && IsQuote(css[i + 4]) then
      assert css[i + 5..i + 5] == [];
      var r := CloseFrom(css, i + 5, i + 6);
      assert r.Some? ==> css[i + 5..r.value][..] == css[i + 5..i + 5 + |css[i + 5..r.value]|];
      r
    else None
  }

  /** The match ends at the first quote followed by `)`: the lazy `.+?`
      stops as early as it can. */
  lemma UrlMatchIsLeast(css: string, i: nat)
    requires i <= |css| && UrlMatchAt(css, i).Some?
    ensures forall m :: i + 6 <= m < UrlMatchAt(css, i).value ==> !(IsQuote(css[m]) && css[m + 1] == ')')
  {
    assert css[i + 5..i + 5] == [];
    assert UrlMatchAt(css, i) == CloseFrom(css, i + 5, i + 6);
    CloseFromLeast(css, i + 5, i + 6);
  }

  /** Every quoted single-line `url(...)` reference at `i` is found: the match
      ends at its closing quote or at an earlier quote followed by `)`. */
  lemma UrlMatchFound(css: string, i: nat, p: string)
    requires UrlCallAt(css, i, p) && |p| > 0 && NoLineTerminator(p)
    ensures UrlMatchAt(css, i).Some? && UrlMatchAt(css, i).value <= i + 5 + |p|
  {
    var e := i + 5 + |p|;
    assert css[i + 5..e] == p;
    assert css[i + 5..i + 5] == [];
    var r := CloseFrom(css, i + 5, i + 6);
    assert UrlMatchAt(css, i) == r;
    CloseFromLeast(css, i + 5, i + 6);
    assert IsQuote(css[e]) && css[e + 1] == ')';
  }

  /** `p` is the path of some `url(...)` reference at or after index `i`. */
  ghost predicate QuotedFrom(css: string, i: nat, p: string)
  {
    exists j :: i <= j && UrlCallAt(css, j, p)
  }

  /** Every path in `ps` is a non-empty, single-line text quoted in a `url(...)`
      of `css` at or after index `i`. */
  ghost predicate AllQuoted(css: string, i: nat, ps: seq<string>)
  {
    forall k :: 0 <= k < |ps| ==> |ps[k]| > 0 && NoLineTerminator(ps[k]) && QuotedFrom(css, i, ps[k])
  }

  lemma AllQuotedCons(css: string, i: nat, i': nat, p: string, ps: seq<string>)
    requires i <= i' && AllQuoted(css, i', ps)
    requires |p| > 0 && NoLineTerminator(p) && QuotedFrom(css, i, p)
    ensures AllQuoted(css, i, [p] + ps)
  {
    var r := [p] + ps;
    forall k | 0 <= k < |r| ensures |r[k]| > 0 && NoLineTerminator(r[k]) && QuotedFrom(css, i, r[k]) {
      if k > 0 {
        assert r[k] == ps[k - 1];
        var j :| i' <= j && UrlCallAt(css, j, ps[k - 1]);
      }
    }
  }

  lemma AllQuotedEarlier(css: string, i: nat, i': nat, ps: seq<string>)
    requires i <= i' && AllQuoted(css, i', ps)
    ensures AllQuoted(css, i, ps)
  {
    forall k | 0 <= k < |ps| ensures QuotedFrom(css, i, ps[k]) {
      var j :| i' <= j && UrlCallAt(css, j, ps[k]);
    }
  }

  /** The paths the global `url(...)` search of extension.js:213 finds from index
      `i` on: a failed attempt moves on by one character, a match resumes
      after its `)`. */
  function UrlPathsFrom(css: string, i: nat): seq<string>
    requires i <= |css|
    decreases |css| - i
  {
    if i == |css| then []
    else
      match UrlMatchAt(css, i)
      case None => UrlPathsFrom(css, i + 1)
      case Some(e) => [css[i + 5..e]] + UrlPathsFrom(css, e + 2)
  }

  /** A match at `i` contributes its path, quoted at `i`. */
  lemma UrlPathsStep(css: string, i: nat, e: nat)
    requires i < |css| && UrlMatchAt(css, i) == Some(e)
    ensures e + 2 <= |css| && UrlPathsFrom(css, i) == [css[i + 5..e]] + UrlPathsFrom(css, e + 2)
    ensures |css[i + 5..e]| > 0 && NoLineTerminator(css[i + 5..e]) && QuotedFrom(css, i, css[i + 5..e])
  {
    var p := css[i + 5..e];
    assert UrlCallAt(css, i, p);
    assert QuotedFrom(css, i, p);
  }

  /** Every path found is a non-empty, single-line text quoted in a `url(...)` of the input. */
  lemma {:induction false} UrlPathsAreQuoted(css: string, i: nat)
    requires i <= |css|
    decreases |css| - i
    ensures AllQuoted(css, i, UrlPathsFrom(css, i))
  {
    if i < |css| {
      match UrlMatchAt(css, i)
      case None =>
        UrlPathsAreQuoted(css, i + 1);
        AllQuotedEarlier(css, i, i + 1, UrlPathsFrom(css, i + 1));
      case Some(e) =>
        UrlPathsStep(css, i, e);
        UrlPathsAreQuoted(css, e + 2);
        AllQuotedCons(css, i, e + 2, css[i + 5..e], UrlPathsFrom(css, e + 2));
    }
  }

  /** Where the matches of the global search from `i` start: the companion
      of UrlPathsFrom, one position per path. */
  function UrlMatchStarts(css: string, i: nat): seq<nat>
    requires i <= |css|
    decreases |css| - i
  {
    if i == |css| then []
    else
      match UrlMatchAt(css, i)
      case None => UrlMatchStarts(css, i + 1)
      case Some(e) => [i] + UrlMatchStarts(css, e + 2)
  }

  /** Path k is quoted in a `url(...)` starting at `js[k]`, not before `i`,
      and each such call ends before the next one starts. */
  ghost predicate QuotedInOrder(css: string, i: nat, js: seq<nat>, ps: seq<string>)
  {
    && |js| == |ps|
    && (forall k :: 0 <= k < |js| ==> i <= js[k] && UrlCallAt(css, js[k], ps[k]))
    && (forall k :: 0 <= k < |js| - 1 ==> js[k] + 7 + |ps[k]| <= js[k + 1])
  }

  lemma QuotedInOrderCons(css: string, i: nat, e: nat, p: string, js: seq<nat>, ps: seq<string>)
    requires QuotedInOrder(css, e, js, ps) && UrlCallAt(css, i, p) && i + 7 + |p| <= e
    ensures QuotedInOrder(css, i, [i] + js, [p] + ps)
  {
    var js', ps' := [i] + js, [p] + ps;
    forall k | 0 <= k < |js'| ensures i <= js'[k] && UrlCallAt(css, js'[k], ps'[k]) {
      if k > 0 { assert js'[k] == js[k - 1] && ps'[k] == ps[k - 1]; }
    }
    forall k | 0 <= k < |js'| - 1 ensures js'[k] + 7 + |ps'[k]| <= js'[k + 1] {
      if k > 0 { assert js'[k] == js[k - 1] && ps'[k] == ps[k - 1] && js'[k + 1] == js[k]; }
    }
  }

  /** The paths the loop visits come from successive, non-overlapping
      `url(...)` calls of the fetched text, in order of position. */
  lemma {:induction false} UrlPathsInOrder(css: string, i: nat)
    requires i <= |css|
    decreases |css| - i
    ensures QuotedInOrder(css, i, UrlMatchStarts(css, i), UrlPathsFrom(css, i))
  {
    if i < |css| {
      var m := UrlMatchAt(css, i);
      if m.None? {
        UrlStartsSkip(css, i);
        UrlPathsInOrder(css, i + 1);
      } else {
        var e := m.value;
        UrlStartsMatch(css, i, e);
        UrlPathsStep(css, i, e);
        UrlPathsInOrder(css, e + 2);
        QuotedInOrderCons(css, i, e + 2, css[i + 5..e], UrlMatchStarts(css, e + 2), UrlPathsFrom(css, e + 2));
      }
    }
  }

  lemma UrlStartsSkip(css: string, i: nat)
    requires i < |css| && UrlMatchAt(css, i).None?
    ensures UrlMatchStarts(css, i) == UrlMatchStarts(css, i + 1) && UrlPathsFrom(css, i) == UrlPathsFrom(css, i + 1)
  {
  }

  lemma UrlStartsMatch(css: string, i: nat, e: nat)
    requires i < |css| && UrlMatchAt(css, i) == Some(e)
    ensures e + 2 <= |css| && UrlMatchStarts(css, i) == [i] + UrlMatchStarts(css, e + 2)
  {
  }

  function UrlPaths(css: string): seq<string>
  {
    UrlPathsFrom(css, 0)
  }

  predicate NoQuote(p: string)
  {
    forall k :: 0 <= k < |p| ==> !IsQuote(p[k])
  }

  lemma {:induction false} CloseFromSkips(css: string, start: nat, j: nat, e: nat)
    requires start < j <= e && e + 2 <= |css| && NoLineTerminator(css[start..e])
    requires forall m :: j <= m < e ==> !IsQuote(css[m])
    requires IsQuote(css[e]) && css[e + 1] == ')'
    decreases e - j
    ensures NoLineTerminator(css[start..j - 1]) && CloseFrom(css, start, j) == Some(e)
  {
    NoLineTerminatorSlice(css, start, start, j - 1, e);
    assert !IsLineTerminator(css[j - 1]) by { assert css[j - 1] == css[start..e][j - 1 - start]; }
    if j < e {
      CloseFromSkips(css, start, j + 1, e);
    }
  }

  /** A single quoted reference yields exactly its path. */
  lemma SingleUrl(q1: char, p: string, q2: char)
    requires IsQuote(q1) && IsQuote(q2) && |p| > 0 && NoLineTerminator(p) && NoQuote(p)
    ensures UrlPaths("url(" + [q1] + p + [q2] + ")") == [p]
  {
    var css := "url(" + [q1] + p + [q2] + ")";
    var e := 5 + |p|;
    assert css[5..e] == p;
    assert css[..4] == "url(" && css[4] == q1 && css[e] == q2 && css[e + 1] == ')';
    forall m | 6 <= m < e ensures !IsQuote(css[m]) { assert css[m] == p[m - 5]; }
    CloseFromSkips(css, 5, 6, e);
    assert UrlMatchAt(css, 0) == Some(e);
    assert UrlPathsFrom(css, e + 2) == [];
  }

  /** A path parseCSS leaves alone: one starting with `http` or `data` (extension.js:219). */
  predicate IsAbsolute(url: string)
  {
    StartsWith(url, "http") || StartsWith(url, "data")
  }

  /** The path with every `./` found scanning left to right dropped (extension.js:220). */
  function StripDotSlash(s: string): (r: string)
    ensures |r| <= |s| && (|s| - |r|) % 2 == 0
  {
    if |s| >= 2 && s[0] == '.' && s[1] == '/' then StripDotSlash(s[2..])
    else if s == [] then []
    else [s[0]] + StripDotSlash(s[1..])
  }

  predicate HasDotSlash(s: string)
  {
    exists k :: 0 <= k < |s| - 1 && s[k] == '.' && s[k + 1] == '/'
  }

  /** A path with no `./` is kept as it is. */
  lemma {:induction false} StripWithoutDotSlash(s: string)
    requires !HasDotSlash(s)
    ensures StripDotSlash(s) == s
  {
    if s != [] {
      forall k | 0 <= k < |s[1..]| - 1 ensures !(s[1..][k] == '.' && s[1..][k + 1] == '/') {
        assert s[1..][k] == s[k + 1] && s[1..][k + 1] == s[k + 2];
      }
      StripWithoutDotSlash(s[1..]);
      assert [s[0]] + s[1..] == s;
    }
  }

  /** A path containing `./` loses at least one: the scan reaches the first occurrence. */
  lemma {:induction false} StripShortensDotSlash(s: string)
    requires HasDotSlash(s)
    ensures |StripDotSlash(s)| + 2 <= |s|
  {
    if !(|s| >= 2 && s[0] == '.' && s[1] == '/') {
      var k :| 0 <= k < |s| - 1 && s[k] == '.' && s[k + 1] == '/';
      assert s[1..][k - 1] == '.' && s[1..][k] == '/';
      StripShortensDotSlash(s[1..]);
    }
  }

  /** Dropping `./` leaves the path as it is exactly when it contains none. */
  lemma StripUnchangedIff(s: string)
    ensures StripDotSlash(s) == s <==> !HasDotSlash(s)
  {
    if HasDotSlash(s) {
      StripShortensDotSlash(s);
    } else {
      StripWithoutDotSlash(s);
    }
  }

  /** Leading `./` are all dropped: `././img/a.png` becomes `img/a.png`. */
  lemma {:induction false} StripLeadingDotSlashes(n: nat, s: string)
    ensures StripDotSlash(Repeat("./", n) + s) == StripDotSlash(s)
  {
    if n > 0 {
      var rest := Repeat("./", n - 1) + s;
      assert Repeat("./", n) + s == "./" + rest;
      assert ("./" + rest)[0] == '.' && ("./" + rest)[1] == '/' && ("./" + rest)[2..] == rest;
      StripLeadingDotSlashes(n - 1, s);
    } else {
      assert Repeat("./", n) + s == s;
    }
  }

  function Repeat(s: string, n: nat): string
  {
    if n == 0 then "" else s + Repeat(s, n - 1)
  }

  /** One turn of the loop of parseCSS. */
  function RewriteOne(css: string, url: string, assetsUrl: string): string
  {
    if IsAbsolute(url) then css else ReplaceFirst(css, url, assetsUrl + StripDotSlash(url))
  }

  /** The loop of parseCSS over the matched paths, in order. */
  function ApplyRewrites(css: string, urls: seq<string>, assetsUrl: string): string
  {
    if urls == [] then css
    else RewriteOne(ApplyRewrites(css, urls[..|urls| - 1], assetsUrl), urls[|urls| - 1], assetsUrl)
  }

  /** The `for` loop of parseCSS (extension.js:213-223). The paths are those of
      the text as fetched; `matchAll` does not see the later replacements. */
  method RewriteCss(fetched: string, assetsUrl: string) returns (css: string)
    ensures css == ApplyRewrites(fetched, UrlPaths(fetched), assetsUrl)
  {
    css := fetched;
    var urls := UrlPaths(fetched);
    for k := 0 to |urls|
      invariant css == ApplyRewrites(fetched, urls[..k], assetsUrl)
    {
      var url := urls[k];
      assert urls[..k + 1][..k] == urls[..k];
      if !StartsWith(url, "http") && !StartsWith(url, "data") {
        var newUrl := assetsUrl + StripDotSlash(url);
        css := ReplaceFirst(css, url, newUrl);
      }
    }
    assert urls[..|urls|] == urls;
  }

  /** http and data URLs are never touched. */
  lemma {:induction false} AbsoluteUrlsUntouched(css: string, urls: seq<string>, assetsUrl: string)
    requires forall k :: 0 <= k < |urls| ==> IsAbsolute(urls[k])
    ensures ApplyRewrites(css, urls, assetsUrl) == css
  {
    if urls != [] {
      var init := urls[..|urls| - 1];
      assert forall k :: 0 <= k < |init| ==> init[k] == urls[k];
      AbsoluteUrlsUntouched(css, init, assetsUrl);
    }
  }

  /** A relative URL is replaced, at its first occurrence, by the assets URL
      followed by the URL with its `./` removed (when that text has no `$`,
      which `replace` would interpret). */
  lemma RelativeUrlRewritten(css: string, url: string, assetsUrl: string)
    requires !IsAbsolute(url) && IndexOf(css, url).Some?
    requires forall k :: 0 <= k < |assetsUrl + StripDotSlash(url)| ==> (assetsUrl + StripDotSlash(url))[k] != '$'
    ensures var i := IndexOf(css, url).value;
      RewriteOne(css, url, assetsUrl) == css[..i] + assetsUrl + StripDotSlash(url) + css[i + |url|..]
  {
  }

  /** A relative path found twice is rewritten twice at its first occurrence.
      When the new URL ends with the path itself (it has no `./` to drop), the
      second `replace` finds the path inside the URL the first one wrote: the
      text holds the assets URL twice, and everything after the first
      occurrence, the second occurrence included, is left as fetched. */
  lemma RepeatedPathRewritesFirstAgain(css: string, url: string, assetsUrl: string)
    requires !IsAbsolute(url) && IndexOf(css, url).Some? && StripDotSlash(url) == url
    requires forall k :: 0 <= k < |assetsUrl + url| ==> (assetsUrl + url)[k] != '$'
    ensures var i := IndexOf(css, url).value;
      var r := ApplyRewrites(css, [url, url], assetsUrl);
      && |r| == |css| + 2 * |assetsUrl|
      && r[|r| - (|css| - i - |url|)..] == css[i + |url|..]
  {
    var rep := assetsUrl + url;
    assert |rep| == |assetsUrl| + |url| && rep[|rep| - |url|..] == url;
    RewritesOfRelativeTwice(css, url, assetsUrl);
    ReplaceFirstTwice(css, url, rep);
  }

  /** Two turns of the loop on the same relative path with no `./`. */
  lemma RewritesOfRelativeTwice(css: string, url: string, assetsUrl: string)
    requires !IsAbsolute(url) && StripDotSlash(url) == url
    ensures ApplyRewrites(css, [url, url], assetsUrl)
      == ReplaceFirst(ReplaceFirst(css, url, assetsUrl + url), url, assetsUrl + url)
  {
    assert [url, url][..1] == [url];
    assert ApplyRewrites(css, [url], assetsUrl) == RewriteOne(css, url, assetsUrl);
  }

  /** The stylesheet URL parseCSS fetches (extension.js:202-205). */
  function ThemeCssUrl(m: ThemeManifest): string
  {
    if Contains(m.cssURL, RawHost) then JsDelivrUrl(m.user, m.repo, m.branch, m.usercss) else m.cssURL
  }

  /** The assets directory next to the stylesheet: the first `/user.css` of its
      URL becomes `/assets/` (extension.js:207). */
  function AssetsUrl(userCssUrl: string): (r: string)
    ensures IndexOf(userCssUrl, "/user.css").None? ==> r == userCssUrl
    ensures IndexOf(userCssUrl, "/user.css").Some? ==>
      var i := IndexOf(userCssUrl, "/user.css").value;
      r == userCssUrl[..i] + "/assets/" + userCssUrl[i + 9..]
  {
    ReplaceFirst(userCssUrl, "/user.css", "/assets/")
  }

  /** The stylesheet text parseCSS returns for a theme once its user.css was
      fetched: every `url(...)` path of the fetched text, in order, rewritten
      against the theme's assets directory. */
  function ThemeUserCss(m: ThemeManifest, fetched: string): string
  {
    ApplyRewrites(fetched, UrlPaths(fetched), AssetsUrl(ThemeCssUrl(m)))
  }

  /** parseCSS once the stylesheet text has been fetched. */
  method ParseCss(m: ThemeManifest, fetched: string) returns (css: string)
    ensures css == ThemeUserCss(m, fetched)
  {
    var userCssUrl := ThemeCssUrl(m);
    var assetsUrl := AssetsUrl(userCssUrl);
    css := RewriteCss(fetched, assetsUrl);
  }
}
