/**
 * The self-contained helpers of the dashboard script: the query-string
 * parser, the breadcrumb generator, the latency grade of a channel, the
 * first-occurrence filter, the archive flag table and the notification text.
 * The document, the map widgets and the network requests around them are not
 * modelled.
 */
module App {
  import opened Wrappers
  import opened Strings

  // ---------------------------------------------------------------------
  // parseQuery
  // ---------------------------------------------------------------------

  /** `trimQueryString`: drop one leading `?`, if the string starts with one. */
  function TrimQueryString(q: string): (r: string)
    ensures q == (if |q| > 0 && q[0] == '?' then "?" else "") + r
  {
    if |q| > 0 && q[0] == '?' then q[1..] else q
  }

  /**
   * `decodeURIComponent` over every piece; it throws on a malformed escape,
   * which `decode` reports as `None`, and then the whole parse throws.
   */
  function DecodeAll(parts: seq<string>, decode: string -> Option<string>): (r: Option<seq<string>>)
    ensures r.Some? <==> forall k :: 0 <= k < |parts| ==> decode(parts[k]).Some?
    ensures r.Some? ==> (|r.value| == |parts| &&
      forall k :: 0 <= k < |parts| ==> r.value[k] == decode(parts[k]).value)
    decreases |parts|
  {
    if parts == [] then Some([])
    else
      match decode(parts[0])
      case None => None
      case Some(d) =>
        match DecodeAll(parts[1..], decode)
        case None => None
        case Some(ds) => Some([d] + ds)
  }

  /**
   * One `&`-separated item: split on `=`, decode every piece, and take the
   * first piece as the key and the second (or `""` when there is none) as the
   * value. Pieces after the second are decoded and dropped.
   */
  function ParseItem(item: string, decode: string -> Option<string>): (r: Option<(string, string)>)
    ensures r.Some? <==> forall piece :: piece in Split(item, '=') ==> decode(piece).Some?
    ensures r.Some? ==> r.value.0 == decode(Split(item, '=')[0]).value
    ensures r.Some? ==> r.value.1 == if |Split(item, '=')| >= 2 then decode(Split(item, '=')[1]).value else ""
  {
    var ps := Split(item, '=');
    var ds := DecodeAll(ps, decode);
    if ds.None? then
      assert !(forall k :: 0 <= k < |ps| ==> decode(ps[k]).Some?);
      None
    else Some((ds.value[0], if |ds.value| >= 2 then ds.value[1] else ""))
  }

  /** The query object after assigning the items in order; `None` if one throws. */
  function Parsed(items: seq<string>, decode: string -> Option<string>): (r: Option<map<string, string>>)
    ensures r.Some? ==> forall k :: 0 <= k < |items| ==> ParseItem(items[k], decode).Some?
    decreases |items|
  {
    if items == [] then Some(map[])
    else
      match Parsed(items[..|items| - 1], decode)
      case None => None
      case Some(m) =>
        match ParseItem(items[|items| - 1], decode)
        case None => None
        case Some(kv) => Some(m[kv.0 := kv.1])
  }

  /** Assigning one more item that parses to `(k, v)` sets `k` to `v`. */
  lemma ParsedStep(items: seq<string>, x: string, decode: string -> Option<string>,
                   m: map<string, string>, k: string, v: string)
    requires Parsed(items, decode) == Some(m) && ParseItem(x, decode) == Some((k, v))
    ensures Parsed(items + [x], decode) == Some(m[k := v])
  {
    assert (items + [x])[..|items|] == items;
  }

  /** Three items that parse assign their keys in order. */
  lemma ParsedThree(a: string, b: string, c: string, decode: string -> Option<string>,
                    ka: string, va: string, kb: string, vb: string, kc: string, vc: string)
    requires ParseItem(a, decode) == Some((ka, va))
    requires ParseItem(b, decode) == Some((kb, vb))
    requires ParseItem(c, decode) == Some((kc, vc))
    ensures Parsed([a, b, c], decode) == Some(map[ka := va, kb := vb, kc := vc])
  {
    ParsedStep([], a, decode, map[], ka, va);
    assert [] + [a] == [a];
    ParsedStep([a], b, decode, map[ka := va], kb, vb);
    assert [a] + [b] == [a, b];
    ParsedStep([a, b], c, decode, map[ka := va, kb := vb], kc, vc);
    assert [a, b] + [c] == [a, b, c];
  }

  /** `parseQuery`: fill the query object item by item. */
  method ParseQuery(queryString: string, decode: string -> Option<string>) returns (r: Option<map<string, string>>)
    ensures r == Parsed(Split(TrimQueryString(queryString), '&'), decode)
  {
    var items := Split(TrimQueryString(queryString), '&');
    var queryObject: map<string, string> := map[];
    var i := 0;
    while i < |items|
      invariant 0 <= i <= |items|
      invariant Parsed(items[..i], decode) == Some(queryObject)
    {
      assert items[..i + 1][..i] == items[..i];
      var entry := ParseItem(items[i], decode);
      if entry.None? {
        ParsedFails(items, decode);
        return None;
      }
      queryObject := queryObject[entry.value.0 := entry.value.1];
      i := i + 1;
    }
    assert items[..i] == items;
    r := Some(queryObject);
  }

  /** The parse throws exactly when some item throws. */
  lemma {:induction false} ParsedFails(items: seq<string>, decode: string -> Option<string>)
    ensures Parsed(items, decode).None? <==> exists k :: 0 <= k < |items| && ParseItem(items[k], decode).None?
    decreases |items|
  {
    if items != [] {
      var n := |items| - 1;
      var init := items[..n];
      ParsedFails(init, decode);
      if Parsed(init, decode).None? {
        var k :| 0 <= k < n && ParseItem(init[k], decode).None?;
        assert init[k] == items[k];
      } else if ParseItem(items[n], decode).Some? {
        forall k | 0 <= k < |items| ensures ParseItem(items[k], decode).Some? {
          if k < n {
            assert init[k] == items[k];
          }
        }
      }
    }
  }

  /** The query object has a key for every item and no other key. */
  lemma {:induction false} ParsedKeys(items: seq<string>, decode: string -> Option<string>)
    requires Parsed(items, decode).Some?
    ensures forall k :: 0 <= k < |items| ==> ParseItem(items[k], decode).Some?
    ensures forall key :: key in Parsed(items, decode).value <==>
      exists k :: 0 <= k < |items| && ParseItem(items[k], decode).value.0 == key
    decreases |items|
  {
    ParsedFails(items, decode);
    if items != [] {
      var n := |items| - 1;
      var init := items[..n];
      ParsedKeys(init, decode);
      assert forall k :: 0 <= k < n ==> init[k] == items[k];
      var kv := ParseItem(items[n], decode).value;
      var m := Parsed(items, decode).value;
      var m0 := Parsed(init, decode).value;
      assert m == m0[kv.0 := kv.1];
      forall key | key in m
        ensures exists k :: 0 <= k < |items| && ParseItem(items[k], decode).value.0 == key
      {
        if key == kv.0 {
          assert ParseItem(items[n], decode).value.0 == key;
        } else {
          assert key in m0;
          var k :| 0 <= k < n && ParseItem(init[k], decode).value.0 == key;
          assert ParseItem(items[k], decode).value.0 == key;
        }
      }
      forall key | exists k :: 0 <= k < |items| && ParseItem(items[k], decode).value.0 == key
        ensures key in m
      {
        var k :| 0 <= k < |items| && ParseItem(items[k], decode).value.0 == key;
        if k < n {
          assert ParseItem(init[k], decode).value.0 == key;
          assert key in m0;
        } else {
          assert k == n;
        }
      }
    }
  }

  /**
   * Each key holds the value of the last item with that key: later duplicates
   * overwrite earlier ones.
   */
  lemma {:induction false} ParsedLastWins(items: seq<string>, decode: string -> Option<string>, k: nat)
    requires Parsed(items, decode).Some? && k < |items|
    requires ParseItem(items[k], decode).Some?
    requires forall j :: k < j < |items| ==>
      ParseItem(items[j], decode).None? || ParseItem(items[j], decode).value.0 != ParseItem(items[k], decode).value.0
    ensures var kv := ParseItem(items[k], decode).value;
      kv.0 in Parsed(items, decode).value && Parsed(items, decode).value[kv.0] == kv.1
    decreases |items|
  {
    var n := |items| - 1;
    var init := items[..n];
    if k < n {
      assert init[k] == items[k];
      assert forall j :: k < j < |init| ==> init[j] == items[j];
      ParsedLastWins(init, decode, k);
    }
  }

  /** An item without `=` maps its key to the empty string. */
  lemma ItemWithoutValue(key: string, decode: string -> Option<string>)
    requires '=' !in key && decode(key).Some?
    ensures ParseItem(key, decode) == Some((decode(key).value, ""))
  {
    SplitWithoutSep(key, '=');
  }

  /** `key=value` maps the decoded key to the decoded value. */
  lemma ItemWithValue(key: string, value: string, decode: string -> Option<string>)
    requires '=' !in key && '=' !in value
    requires decode(key).Some? && decode(value).Some?
    ensures ParseItem(key + "=" + value, decode) == Some((decode(key).value, decode(value).value))
  {
    SplitAfterPiece(key, '=', value);
    SplitWithoutSep(value, '=');
    assert Split(key + "=" + value, '=') == [key, value];
  }

  /** The pieces of `key=value=rest`. */
  lemma SplitItemWithExtraPieces(key: string, value: string, rest: string)
    requires '=' !in key && '=' !in value
    ensures Split(key + "=" + value + "=" + rest, '=') == [key, value] + Split(rest, '=')
  {
    var t := value + "=" + rest;
    assert Split(key + "=" + value + "=" + rest, '=') == [key] + Split(t, '=') by {
      SplitAfterPiece(key, '=', t);
      assert key + "=" + value + "=" + rest == key + "=" + t;
    }
    assert Split(t, '=') == [value] + Split(rest, '=') by {
      SplitAfterPiece(value, '=', rest);
    }
    assert [key] + ([value] + Split(rest, '=')) == [key, value] + Split(rest, '=');
  }

  /** An item whose pieces all decode maps its first piece to its second, or to `""`. */
  lemma ParseItemOfPieces(item: string, decode: string -> Option<string>)
    requires forall k :: 0 <= k < |Split(item, '=')| ==> decode(Split(item, '=')[k]).Some?
    ensures var parts := Split(item, '=');
      ParseItem(item, decode) == Some((decode(parts[0]).value, if |parts| >= 2 then decode(parts[1]).value else ""))
  {
  }

  /** In `key=value=rest` only the text between the first two `=` is the value. */
  lemma ItemWithExtraPieces(key: string, value: string, rest: string, decode: string -> Option<string>)
    requires '=' !in key && '=' !in value
    requires decode(key).Some? && decode(value).Some?
    requires forall k :: 0 <= k < |Split(rest, '=')| ==> decode(Split(rest, '=')[k]).Some?
    ensures ParseItem(key + "=" + value + "=" + rest, decode) == Some((decode(key).value, decode(value).value))
  {
    var item := key + "=" + value + "=" + rest;
    SplitItemWithExtraPieces(key, value, rest);
    var tail := Split(rest, '=');
    var parts := [key, value] + tail;
    assert Split(item, '=') == parts;
    forall k | 0 <= k < |parts| ensures decode(parts[k]).Some? {
      if k >= 2 { assert parts[k] == tail[k - 2]; }
    }
    ParseItemOfPieces(item, decode);
  }

  /** The empty query string (with or without `?`) gives one entry: `""` to `""`. */
  lemma EmptyQuery(q: string, decode: string -> Option<string>)
    requires q == "" || q == "?"
    requires decode("").Some?
    ensures Parsed(Split(TrimQueryString(q), '&'), decode) == Some(map[decode("").value := ""])
  {
    assert TrimQueryString(q) == "";
    assert Split("", '&') == [""];
    ItemWithoutValue("", decode);
    assert [""][..0] == [];
  }

  // ---------------------------------------------------------------------
  // Breadcrumbs
  // ---------------------------------------------------------------------

  /** ASCII upper-casing of one character. */
  function UpperCase(c: char): (u: char)
    ensures 'a' <= c <= 'z' ==> 'A' <= u <= 'Z' && u as int == c as int - 32
    ensures !('a' <= c <= 'z') ==> u == c
  {
    if 'a' <= c <= 'z' then (c as int - 32) as char else c
  }

  /** `String.prototype.capitalize`: upper-case the first character only. */
  function Capitalize(s: string): (r: string)
    ensures |r| == |s|
    ensures |s| > 0 ==> r[0] == UpperCase(s[0]) && r[1..] == s[1..]
  {
    if s == [] then "" else [UpperCase(s[0])] + s[1..]
  }

  /** `getIcon`: a font-awesome icon of the given name and colour. */
  function Icon(icon: string, color: string): (s: string)
    ensures |s| == |icon| + |color| + 38
    ensures s[23..23 + |icon|] == icon && s[29 + |icon|..|s| - 9] == color
  {
    "<span class='fas fa fa-" + icon + " text-" + color + "'></span>"
  }

  /** The breadcrumbs call `getIcon("home")` without a colour. */
  const HomeIcon := "<span class='fas fa fa-" + "home" + " text-" + "undefined" + "'></span>"

  /** The home icon is the icon named `home` in the colour `undefined`. */
  lemma HomeIconIsIcon()
    ensures HomeIcon == Icon("home", "undefined")
  {
  }

  /** The path of the first segments: `"/" + s0 + ... + "/" + s(n-1)`. */
  function CumulativePath(segments: seq<string>): (p: string)
    ensures |p| >= |segments|
    ensures segments != [] ==> p[0] == '/'
    decreases |segments|
  {
    if segments == [] then "" else CumulativePath(segments[..|segments| - 1]) + "/" + segments[|segments| - 1]
  }

  /** One breadcrumb: its title, whether it carries the home icon, and its link. */
  datatype Crumb = Crumb(title: string, home: bool, href: Option<string>)

  /** The crumbs of a path's segments: each links to its cumulative path, except the last. */
  function Crumbs(segments: seq<string>): (cs: seq<Crumb>)
    ensures |cs| == |segments|
    ensures forall i :: 0 <= i < |cs| ==>
      (cs[i].home <==> i == 0) && (cs[i].href.None? <==> i == |cs| - 1)
  {
    seq(|segments|, i requires 0 <= i < |segments| =>
      Crumb(Capitalize(segments[i]), i == 0,
            if i == |segments| - 1 then None else Some(CumulativePath(segments[..i + 1]))))
  }

  const FinalCrumbOpen := "<li id='final-crumb' " + "class='breadcrumb-item active'>"
  const CrumbOpen := "<li class='breadcrumb-item'><a href='"

  /** The list item of one crumb. */
  function RenderCrumb(c: Crumb): (s: string)
    ensures |s| > |c.title| + if c.href.Some? then |c.href.value| else 0
  {
    var text := if c.home then HomeIcon + " " + c.title else c.title;
    match c.href
    case None => FinalCrumbOpen + text + "</li>"
    case Some(h) => CrumbOpen + h + "'>" + text + "</a></li>"
  }

  /** The list items of a path's segments, joined by newlines. */
  function BreadcrumbsHtml(segments: seq<string>): (html: string)
    ensures html == "" <==> segments == []
    ensures segments != [] ==> RenderCrumb(Crumbs(segments)[0]) <= html
  {
    Join(RenderAll(Crumbs(segments)), "\n")
  }

  /** The list items of the crumbs, in order. */
  function RenderAll(cs: seq<Crumb>): (items: seq<string>)
    ensures |items| == |cs|
    ensures cs != [] ==> items[0] == RenderCrumb(cs[0])
    decreases |cs|
  {
    if cs == [] then [] else RenderAll(cs[..|cs| - 1]) + [RenderCrumb(cs[|cs| - 1])]
  }

  /** The cumulative path of one more segment extends the previous one. */
  lemma CumulativePathStep(crumbs: seq<string>, i: nat)
    requires i < |crumbs|
    ensures CumulativePath(crumbs[..i + 1]) == CumulativePath(crumbs[..i]) + "/" + crumbs[i]
  {
    assert crumbs[..i + 1][..i] == crumbs[..i];
  }

  /** The `i`-th crumb, with its link written as the previous path extended by one segment. */
  lemma CrumbAt(crumbs: seq<string>, i: nat)
    requires i < |crumbs|
    ensures Crumbs(crumbs)[i] == Crumb(Capitalize(crumbs[i]), i == 0,
      if i == |crumbs| - 1 then None else Some(CumulativePath(crumbs[..i]) + "/" + crumbs[i]))
  {
    CumulativePathStep(crumbs, i);
  }

  /**
   * The callback of `generateBreadcrumbs` for the `i`-th segment, once the
   * running path has been extended to `fullCrumb`.
   */
  method BreadcrumbItem(crumbs: seq<string>, i: nat, fullCrumb: string) returns (item: string)
    requires i < |crumbs| && fullCrumb == CumulativePath(crumbs[..i + 1])
    ensures item == RenderCrumb(Crumbs(crumbs)[i])
  {
    CrumbAt(crumbs, i);
    CumulativePathStep(crumbs, i);
    var x := Capitalize(crumbs[i]);
    if i == 0 {
      x := HomeIcon + " " + x;
    }
    if i == |crumbs| - 1 {
      item := FinalCrumbOpen + x + "</li>";
    } else {
      item := CrumbOpen + fullCrumb + "'>" + x + "</a></li>";
    }
  }

  /**
   * `generateBreadcrumbs`: one pass over the segments that extends the running
   * path with each one, capitalises it, prefixes the first with the home icon
   * and links every item but the last.
   */
  method GenerateBreadcrumbs(crumbs: seq<string>) returns (html: string)
    ensures html == BreadcrumbsHtml(crumbs)
  {
    var items := BreadcrumbItems(crumbs);
    html := Join(items, "\n");
  }

  /** The loop of `generateBreadcrumbs`: one list item per segment, in order. */
  method BreadcrumbItems(crumbs: seq<string>) returns (items: seq<string>)
    ensures items == RenderAll(Crumbs(crumbs))
  {
    ghost var cs := Crumbs(crumbs);
    var fullCrumb := "";
    items := [];
    var i := 0;
    while i < |crumbs|
      invariant 0 <= i <= |crumbs| == |cs|
      invariant fullCrumb == CumulativePath(crumbs[..i])
      invariant items == RenderAll(cs[..i])
    {
      CumulativePathStep(crumbs, i);
      fullCrumb := fullCrumb + "/" + crumbs[i];
      var item := BreadcrumbItem(crumbs, i, fullCrumb);
      RenderedStep(cs, i);
      items := items + [item];
      i := i + 1;
    }
    assert cs[..i] == cs;
  }

  /** Appending the `i`-th list item extends the rendered prefix by one. */
  lemma RenderedStep(cs: seq<Crumb>, i: nat)
    requires i < |cs|
    ensures RenderAll(cs[..i + 1]) == RenderAll(cs[..i]) + [RenderCrumb(cs[i])]
  {
    assert cs[..i + 1][..i] == cs[..i];
  }


  /**
   * `generateBreadcrumb`: nothing for a path with a single `/` (the home page
   * or a top-level page); otherwise the crumbs of the segments after the
   * leading one, wrapped in an ordered list.
   */
  method GenerateBreadcrumb(pathname: string) returns (html: string)
    ensures html == "" <==> Count(pathname, '/') == 1
    ensures Count(pathname, '/') != 1 ==>
      html == Join(["<ol class='breadcrumb'>", BreadcrumbsHtml(Split(pathname, '/')[1..]), "</ol>"], "\n")
  {
    var crumbs := Split(pathname, '/')[1..];
    if |crumbs| == 1 {
      return "";
    }
    var inner := GenerateBreadcrumbs(crumbs);
    html := Join(["<ol class='breadcrumb'>", inner, "</ol>"], "\n");
    assert html[..1] == "<";
  }

  /** Appending a piece to a join appends the separator and the piece. */
  lemma {:induction false} JoinSnoc(parts: seq<string>, sep: string, x: string)
    requires |parts| >= 1
    ensures Join(parts + [x], sep) == Join(parts, sep) + sep + x
    decreases |parts|
  {
    if |parts| == 1 {
      assert parts + [x] == [parts[0], x];
    } else {
      JoinSnoc(parts[1..], sep, x);
      assert (parts + [x])[1..] == parts[1..] + [x];
    }
  }

  /** The cumulative path is the segments joined by `/` after an empty first piece. */
  lemma {:induction false} CumulativePathIsJoin(segments: seq<string>)
    ensures CumulativePath(segments) == Join([""] + segments, "/")
    decreases |segments|
  {
    if segments != [] {
      var n := |segments| - 1;
      CumulativePathIsJoin(segments[..n]);
      JoinSnoc([""] + segments[..n], "/", segments[n]);
      assert [""] + segments[..n] + [segments[n]] == [""] + segments;
    }
  }

  /** Each shorter cumulative path is a prefix of the longer one. */
  lemma {:induction false} CumulativePathPrefix(segments: seq<string>, j: nat)
    requires j <= |segments|
    ensures CumulativePath(segments[..j]) <= CumulativePath(segments)
    decreases |segments| - j
  {
    if j < |segments| {
      var n := |segments| - 1;
      CumulativePathPrefix(segments[..n], j);
      assert segments[..n][..j] == segments[..j];
    } else {
      assert segments[..j] == segments;
    }
  }

  /** An absolute path is the cumulative path of the segments after its leading `/`. */
  lemma PathOfSegments(pathname: string)
    requires |pathname| > 0 && pathname[0] == '/'
    ensures CumulativePath(Split(pathname, '/')[1..]) == pathname
  {
    var parts := Split(pathname, '/');
    assert pathname == [pathname[0]] + pathname[1..];
    assert parts == [""] + parts[1..];
    CumulativePathIsJoin(parts[1..]);
    JoinSplit(pathname, '/');
  }

  /**
   * For a path starting with `/`, the last crumb's cumulative path is the path
   * itself, and every crumb links to a prefix of it.
   */
  lemma BreadcrumbLinksArePathPrefixes(pathname: string)
    requires |pathname| > 0 && pathname[0] == '/'
    ensures var segments := Split(pathname, '/')[1..];
      && CumulativePath(segments) == pathname
      && forall i :: 0 <= i < |segments| - 1 ==>
           Crumbs(segments)[i].href.Some? && Crumbs(segments)[i].href.value <= pathname
  {
    var segments := Split(pathname, '/')[1..];
    PathOfSegments(pathname);
    forall i | 0 <= i < |segments| - 1
      ensures Crumbs(segments)[i].href.Some? && Crumbs(segments)[i].href.value <= pathname
    {
      CumulativePathPrefix(segments, i + 1);
    }
  }

  /** An item starts with the final-crumb opening tag. */
  predicate IsFinalItem(item: string)
  {
    |item| >= |FinalCrumbOpen| && item[..|FinalCrumbOpen|] == FinalCrumbOpen
  }

  /** A linked item never opens like the final crumb. */
  lemma LinkedItemIsNotFinal(rest: string)
    ensures !IsFinalItem(CrumbOpen + rest)
  {
    var item := CrumbOpen + rest;
    assert item[4] == 'c' && FinalCrumbOpen[4] == 'i';
    if |item| >= |FinalCrumbOpen| {
      assert item[..|FinalCrumbOpen|][4] == item[4];
    }
  }

  /** A crumb renders as the final crumb exactly when it has no link. */
  lemma RenderedFinalIffUnlinked(c: Crumb)
    ensures IsFinalItem(RenderCrumb(c)) <==> c.href.None?
  {
    var text := if c.home then HomeIcon + " " + c.title else c.title;
    match c.href
    case Some(h) =>
      var rest := h + "'>" + text + "</a></li>";
      assert RenderCrumb(c) == CrumbOpen + rest;
      LinkedItemIsNotFinal(rest);
    case None =>
      assert RenderCrumb(c) == FinalCrumbOpen + (text + "</li>");
      FinalItemIsFinal(text + "</li>");
  }

  /** An item opened as the final crumb is recognised as final. */
  lemma FinalItemIsFinal(rest: string)
    ensures IsFinalItem(FinalCrumbOpen + rest)
  {
    var item := FinalCrumbOpen + rest;
    assert item[..|FinalCrumbOpen|] == FinalCrumbOpen;
  }

  /**
   * Only the last item is the active, unlinked final crumb, and only the first
   * item carries the home icon.
   */
  lemma CrumbRoles(segments: seq<string>, i: nat)
    requires i < |segments|
    ensures IsFinalItem(RenderCrumb(Crumbs(segments)[i])) <==> i == |segments| - 1
    ensures Crumbs(segments)[i].home <==> i == 0
  {
    RenderedFinalIffUnlinked(Crumbs(segments)[i]);
  }

  // ---------------------------------------------------------------------
  // getLatencyStatus
  // ---------------------------------------------------------------------

  const UNKNOWN := 0
  const GREEN := 1
  const ORANGE := 2
  const RED := 3

  /** `compare`: green when the latency is under the rate, red otherwise. */
  function Compare(latency: real, rate: real): (c: int)
    requires rate > 0.0
    ensures c == GREEN || c == RED
    ensures c == GREEN <==> latency < rate
  {
    if latency / rate < 1.0 then GREEN else RED
  }

  /** The expected rate of a band code (the first letter of a channel code). */
  function BandRate(band: char): (r: Option<real>)
    ensures r.Some? <==> band in "VLBH"
    ensures r.Some? ==> r.value >= 100.0
  {
    match band
    case 'V' => Some(10000000.0)
    case 'L' => Some(1000000.0)
    case 'B' => Some(25000.0)
    case 'H' => Some(100.0)
    case _ => None
  }

  /** `getLatencyStatus`: the grade of a channel's latency. */
  function LatencyStatus(channel: string, latency: real): (grade: int)
    ensures grade == UNKNOWN || grade == GREEN || grade == RED
    ensures grade == UNKNOWN <==> channel == [] || channel[0] !in "VLBH"
  {
    if channel == [] then UNKNOWN
    else
      match channel[0]
      case 'V' => Compare(latency, 10000000.0)
      case 'L' => Compare(latency, 1000000.0)
      case 'B' => Compare(latency, 25000.0)
      case 'H' => Compare(latency, 100.0)
      case _ => UNKNOWN
  }

  /** Dividing by a positive rate and comparing with 1 is comparing with the rate. */
  lemma CompareIsLess(latency: real, rate: real)
    requires rate > 0.0
    ensures Compare(latency, rate) == if latency < rate then GREEN else RED
  {
    var q := latency / rate;
    assert q * rate == latency;
    if q < 1.0 {
      assert q * rate < 1.0 * rate;
    } else {
      assert q * rate >= 1.0 * rate;
    }
  }

  /** A known band is green exactly below its rate; ORANGE is never produced. */
  lemma LatencyStatusByRate(channel: string, latency: real)
    ensures LatencyStatus(channel, latency) ==
      if channel == [] || BandRate(channel[0]).None? then UNKNOWN
      else if latency < BandRate(channel[0]).value then GREEN else RED
    ensures LatencyStatus(channel, latency) != ORANGE
  {
    if channel != [] && BandRate(channel[0]).Some? {
      CompareIsLess(latency, BandRate(channel[0]).value);
    }
  }

  // ---------------------------------------------------------------------
  // unique
  // ---------------------------------------------------------------------

  /** `a.indexOf(v)`: the first index holding `v`, or -1. */
  function IndexOf<T(==)>(a: seq<T>, v: T): (i: int)
    ensures -1 <= i < |a|
    ensures i == -1 <==> v !in a
    ensures i >= 0 ==> a[i] == v && forall k :: 0 <= k < i ==> a[k] != v
    decreases |a|
  {
    if a == [] then -1
    else if a[0] == v then 0
    else
      var k := IndexOf(a[1..], v);
      if k < 0 then -1 else k + 1
  }

  /** `unique(v, i, a)`: `v` sits at its first occurrence. */
  predicate Unique<T(==)>(v: T, i: int, a: seq<T>): (b: bool)
    ensures b <==> if 0 <= i < |a| then a[i] == v && v !in a[..i] else i == -1 && v !in a
  {
    var k := IndexOf(a, v);
    assert 0 <= k ==> v !in a[..k] by {
      if 0 <= k { assert forall x :: x in a[..k] ==> x != v; }
    }
    k == i
  }

  /** `a.filter(unique)` over the first `n` elements. */
  function FilterUnique<T(==)>(a: seq<T>, n: nat): (r: seq<T>)
    requires n <= |a|
    ensures |r| <= n
  {
    if n == 0 then [] else FilterUnique(a, n - 1) + (if Unique(a[n - 1], n - 1, a) then [a[n - 1]] else [])
  }

  /**
   * The filtered list has no duplicates, holds every element of the input,
   * and keeps the elements in the order of their first occurrences.
   */
  lemma {:induction false} FilterUniqueCorrect<T>(a: seq<T>, n: nat)
    requires n <= |a|
    ensures var r := FilterUnique(a, n);
      && (forall i, j :: 0 <= i < j < |r| ==> r[i] != r[j])
      && (forall v :: v in r <==> v in a[..n])
      && (forall i, j :: 0 <= i < j < |r| ==> IndexOf(a, r[i]) < IndexOf(a, r[j]))
      && (forall i :: 0 <= i < |r| ==> IndexOf(a, r[i]) < n)
    decreases n
  {
    if n > 0 {
      FilterUniqueCorrect(a, n - 1);
      var prev := FilterUnique(a, n - 1);
      var r := FilterUnique(a, n);
      var v := a[n - 1];
      assert a[..n] == a[..n - 1] + [v];
      if Unique(v, n - 1, a) {
        assert r == prev + [v];
        assert v !in prev && IndexOf(a, v) == n - 1;
      } else {
        assert r == prev;
        var f := IndexOf(a, v);
        assert 0 <= f < n - 1;
        assert v in a[..n - 1] by { assert a[..n - 1][f] == v; }
      }
    }
  }

  /** The dashboard's deduplication of a list. */
  lemma DedupCorrect<T>(a: seq<T>)
    ensures var r := FilterUnique(a, |a|);
      && (forall i, j :: 0 <= i < j < |r| ==> r[i] != r[j])
      && (forall v :: v in r <==> v in a)
      && (forall i, j :: 0 <= i < j < |r| ==> IndexOf(a, r[i]) < IndexOf(a, r[j]))
  {
    FilterUniqueCorrect(a, |a|);
    assert a[..|a|] == a;
  }

  // ---------------------------------------------------------------------
  // getCountryFlag
  // ---------------------------------------------------------------------

  /** The country (ISO 3166 code) behind each flag constant, per archive. */
  const ArchiveCountry: map<string, string> := map[
    "ODC" := "NL", "GFZ" := "DE", "LMU" := "DE", "BGR" := "DE", "SED" := "CH",
    "INGV" := "IT", "RESIF" := "FR", "IPGP" := "FR", "NIEP" := "RO",
    "NOA" := "GR", "KOERI" := "TR", "BER" := "NO"]

  const FLAG_NETHERLANDS := "&#x1F1F3;&#x1F1F1;"
  const FLAG_GERMANY := "&#x1F1E9;&#x1F1EA;"
  const FLAG_SWITZERLAND := "&#x1F1E8;&#x1F1ED"
  const FLAG_ITALY := "&#x1F1EE;&#x1F1F9;"
  const FLAG_ROMANIA := "&#x1F1F7;&#x1F1F4;"
  const FLAG_FRANCE := "&#x1F1EB;&#x1F1F7;"
  const FLAG_GREECE := "&#x1F1EC;&#x1F1F7;"
  const FLAG_TURKEY := "&#x1F1F9;&#x1F1F7;"
  const FLAG_NORWAY := "&#x1F1F3;&#x1F1F4;"

  /** `getCountryFlag` as written: the flag of an archive, `""` for others. */
  function CountryFlag(archive: string): (flag: string)
    ensures flag == "" <==> archive !in ArchiveCountry
  {
    match archive
    case "ODC" => FLAG_NETHERLANDS
    case "GFZ" => FLAG_GERMANY
    case "LMU" => FLAG_GERMANY
    case "BGR" => FLAG_GERMANY
    case "SED" => FLAG_SWITZERLAND
    case "INGV" => FLAG_ITALY
    case "RESIF" => FLAG_FRANCE
    case "IPGP" => FLAG_FRANCE
    case "NIEP" => FLAG_ROMANIA
    case "NOA" => FLAG_GREECE
    case "KOERI" => FLAG_TURKEY
    case "BER" => FLAG_NORWAY
    case _ => ""
  }

  /** `getCountryFlag` with the Swiss entity closed by its `;`. */
  function CountryFlagFixed(archive: string): (flag: string)
    ensures flag == "" <==> archive !in ArchiveCountry
    ensures archive != "SED" ==> flag == CountryFlag(archive)
  {
    if archive == "SED" then FLAG_SWITZERLAND + ";" else CountryFlag(archive)
  }

  /** An upper-case hexadecimal digit. */
  function HexDigit(d: nat): char
    requires d < 16
  {
    "0123456789ABCDEF"[d]
  }

  /** The HTML entity of the regional indicator symbol for letter `c`. */
  function RegionalIndicator(c: char): string
    requires 'A' <= c <= 'Z'
  {
    var n := 0xE6 + (c as int - 'A' as int);
    "&#x1F1" + [HexDigit(n / 16), HexDigit(n % 16)] + ";"
  }

  /** A flag as two regional indicator entities spelling the country code. */
  function FlagOf(iso: string): string
    requires |iso| == 2 && 'A' <= iso[0] <= 'Z' && 'A' <= iso[1] <= 'Z'
  {
    RegionalIndicator(iso[0]) + RegionalIndicator(iso[1])
  }

  /** As written, the Swiss flag lacks the `;` that ends its second entity. */
  lemma SwissFlagTruncated()
    ensures CountryFlag("SED") + ";" == FlagOf("CH")
    ensures CountryFlag("SED") != FlagOf("CH")
  {
  }

  /** The flags of the Netherlands, Germany, Italy and Romania spell their codes. */
  lemma NorthernFlagsSpellCountries()
    ensures FLAG_NETHERLANDS == FlagOf("NL") && FLAG_GERMANY == FlagOf("DE")
    ensures FLAG_ITALY == FlagOf("IT") && FLAG_ROMANIA == FlagOf("RO")
  {
    assert FLAG_NETHERLANDS == FlagOf("NL");
    assert FLAG_GERMANY == FlagOf("DE");
    assert FLAG_ITALY == FlagOf("IT");
  }

  /** The flags of France, Greece, Turkey and Norway spell their codes. */
  lemma SouthernFlagsSpellCountries()
    ensures FLAG_FRANCE == FlagOf("FR") && FLAG_GREECE == FlagOf("GR")
    ensures FLAG_TURKEY == FlagOf("TR") && FLAG_NORWAY == FlagOf("NO")
  {
    assert FLAG_FRANCE == FlagOf("FR");
    assert FLAG_GREECE == FlagOf("GR");
    assert FLAG_TURKEY == FlagOf("TR");
  }

  /** Every listed archive's corrected flag spells its country's code. */
  lemma CountryFlagFixedSpellsCountry(archive: string)
    requires archive in ArchiveCountry
    ensures var iso := ArchiveCountry[archive];
      |iso| == 2 && 'A' <= iso[0] <= 'Z' && 'A' <= iso[1] <= 'Z' &&
      CountryFlagFixed(archive) == FlagOf(iso)
  {
    NorthernFlagsSpellCountries();
    SouthernFlagsSpellCountries();
    match archive
    case "SED" => SwissFlagTruncated();
    case "ODC" => assert CountryFlagFixed("ODC") == FLAG_NETHERLANDS;
    case "GFZ" => assert CountryFlagFixed("GFZ") == FLAG_GERMANY;
    case "LMU" => assert CountryFlagFixed("LMU") == FLAG_GERMANY;
    case "BGR" => assert CountryFlagFixed("BGR") == FLAG_GERMANY;
    case "INGV" => assert CountryFlagFixed("INGV") == FLAG_ITALY;
    case "RESIF" => assert CountryFlagFixed("RESIF") == FLAG_FRANCE;
    case "IPGP" => assert CountryFlagFixed("IPGP") == FLAG_FRANCE;
    case "NIEP" => assert CountryFlagFixed("NIEP") == FLAG_ROMANIA;
    case "NOA" => assert CountryFlagFixed("NOA") == FLAG_GREECE;
    case "KOERI" => assert CountryFlagFixed("KOERI") == FLAG_TURKEY;
    case "BER" => assert CountryFlagFixed("BER") == FLAG_NORWAY;
  }

  // ---------------------------------------------------------------------
  // generateNotificationMessage
  // ---------------------------------------------------------------------

  /** `generateNotificationMessage`: the text for a number of new messages. */
  function NotificationMessage(count: int): (msg: string)
    ensures msg == "No new messages" <==> count == 0
    ensures msg == "1 new message" <==> count == 1
    ensures count != 0 && count != 1 ==> msg == IntToString(count) + " new messages"
  {
    match count
    case 0 => "No new messages"
    case 1 => "1 new message"
    case _ =>
      var digits := IntToString(count);
      var msg := digits + " new messages";
      assert msg[0] == digits[0] && "No new messages"[0] == 'N';
      assert |msg| > |"1 new message"|;
      msg
  }

  /** The count is read back from the front of a plural message. */
  lemma NotificationCountRecoverable(count: nat)
    requires count >= 2
    ensures var msg := NotificationMessage(count);
      |msg| > 13 && ParseNat(msg[..|msg| - 13]) == count
  {
    var msg := NotificationMessage(count);
    assert msg[..|msg| - 13] == NatToString(count);
    ParseNatToString(count);
  }
}
