/** What rendering means, on files written out: the laws name neither the substitution nor the values of items. */
module TemplateLaws {
  import opened BasicStrings
  import opened HashMap
  import opened Template

  /** A file may end in any byte, which is not read. */
  function File(text: string, last: char): string {
    text + [last]
  }

  /** What stands between an item and the text that is kept: any one character but an opening brace. */
  predicate Discarded(c: char) {
    c != '{' && c != '\0'
  }

  // ----- One file with one item -----

  ghost function OnePage(file: string, lead: string, item: Item, tail: string): Site {
    map[file := Page(lead, [Segment(item, tail)])]
  }

  lemma {:induction false} OnePageHolds(file: string, lead: string, item: Item, tail: string, last: char)
    requires Free(lead, '{') && GoodItem(item) && Free(tail, '{')
    ensures Holds(map[file := File(lead + "{" + Body(item) + "}" + tail, last)], OnePage(file, lead, item, tail))
  {
    hide GoodItem, Body;
    var s := [Segment(item, tail)];
    var text := lead + "{" + Body(item) + "}" + tail;
    assert s[1..] == [];
    assert PrintSegments([]) == "";
    assert Print(Page(lead, s)) == lead + ("{" + Body(item) + "}" + tail + "") == text;
    assert File(text, last)[..|File(text, last)| - 1] == text;
  }

  /** Rendering such a file: the text in front, the value, and what is left of the text behind. */
  lemma {:induction false} OnePageSubst(rank: map<string, nat>, context: map<string, string>,
                                        file: string, lead: string, item: Item, tail: string)
    requires Acyclic(OnePage(file, lead, item, tail), rank) && !item.Include?
    ensures Subst(OnePage(file, lead, item, tail), rank, context, file) ==
      if item.Unknown? then lead
      else lead + Value(context, item) + if tail == "" then "" else if item.Braces? then "}" + tail else tail[1..]
  {
    hide Value;
    var site := OnePage(file, lead, item, tail);
    var after := if tail == "" then "" else if item.Braces? then "}" + tail else tail[1..];
    assert SubstSegments(site, rank, context, file, 1) == "";
    assert !item.Unknown? ==>
      SubstSegments(site, rank, context, file, 0) == Value(context, item) + after + "";
    assert lead + (Value(context, item) + after + "") == lead + Value(context, item) + after;
    assert lead + "" == lead;
  }

  lemma {:induction false} OneRank(file: string, lead: string, item: Item, tail: string)
    requires !item.Include?
    ensures Acyclic(OnePage(file, lead, item, tail), map[file := 0])
  {
  }

  /** A placeholder is replaced by the value of its key, and by nothing if there is none. */
  method RenderPlaceholder(context: HashMap<string>, files: map<string, string>, file: string,
                           lead: string, key: string, rest: string, last: char) returns (res: BasicString)
    requires context.Valid() && Free(lead, '{') && Free(key, '}') && Free(rest, '{')
    requires files == map[file := File(lead + "{{" + key + "}}" + rest, last)]
    ensures fresh(res) && res.Valid()
    ensures key in context.Contents() ==> res.Text() == lead + context.Contents()[key] + rest
    ensures key !in context.Contents() ==> res.Text() == lead + rest
  {
    hide Subst, ContentsOf, context.Valid, Holds, Acyclic;
    ghost var item, tail := Placeholder(key), "}" + rest;
    OnePageHolds(file, lead, item, tail, last);
    assert lead + "{" + Body(item) + "}" + tail == lead + "{{" + key + "}}" + rest;
    OneRank(file, lead, item, tail);
    res := Render(file, context, files, OnePage(file, lead, item, tail), map[file := 0]);
    OnePageSubst(map[file := 0], context.Contents(), file, lead, item, tail);
    assert tail[1..] == rest && lead + "" + rest == lead + rest;
  }

  /** After a new key has been set, its value stands where its placeholder was. */
  method SetThenRender(context: HashMap<string>, files: map<string, string>, file: string,
                       lead: string, key: string, value: string, rest: string, last: char)
    returns (res: BasicString)
    requires context.Valid() && !context.Full() && key !in context.Contents()
    requires Free(lead, '{') && Free(key, '}') && Free(rest, '{')
    requires files == map[file := File(lead + "{{" + key + "}}" + rest, last)]
    modifies context, context.entries
    ensures res.Valid() && res.Text() == lead + value + rest
  {
    hide ContentsOf;
    TemplateSet(context, key, value);
    res := RenderPlaceholder(context, files, file, lead, key, rest, last);
  }

  /** A `when` shows its text if and only if its key has the expected value. */
  method RenderWhenFile(context: HashMap<string>, files: map<string, string>, file: string, lead: string,
                        key: string, value: string, text: string, c: char, rest: string, last: char)
    returns (res: BasicString)
    requires context.Valid() && Free(lead, '{') && Discarded(c) && Free(rest, '{')
    requires Free(key, '}') && Free(value, '}') && Free(text, '}') && ' ' !in key && ' ' !in value
    requires files == map[file := File(lead + "{%when " + key + " " + value + " " + text + "%}" + [c] + rest, last)]
    ensures fresh(res) && res.Valid()
    ensures key in context.Contents() && context.Contents()[key] == value ==> res.Text() == lead + text + rest
    ensures !(key in context.Contents() && context.Contents()[key] == value) ==> res.Text() == lead + rest
  {
    hide Subst, ContentsOf, context.Valid, Holds, Acyclic;
    ghost var item, tail := When(key, value, text), [c] + rest;
    OnePageHolds(file, lead, item, tail, last);
    WhenText(lead, key, value, text, c, rest);
    OneRank(file, lead, item, tail);
    res := Render(file, context, files, OnePage(file, lead, item, tail), map[file := 0]);
    OnePageSubst(map[file := 0], context.Contents(), file, lead, item, tail);
    assert tail[1..] == rest && lead + "" + rest == lead + rest;
  }

  lemma {:induction false} WhenText(lead: string, key: string, value: string, text: string, c: char, rest: string)
    ensures lead + "{" + Body(When(key, value, text)) + "}" + ([c] + rest) ==
      lead + "{%when " + key + " " + value + " " + text + "%}" + [c] + rest
  {
    var b := key + " " + value + " " + text;
    assert Body(When(key, value, text)) == "%when " + b + "%";
    assert lead + "{%when " + key + " " + value + " " + text + "%}" + [c] + rest ==
      lead + "{%when " + b + "%}" + [c] + rest;
  }

  /** Of other braces, the braces are shown without what was between them. */
  method RenderBraces(context: HashMap<string>, files: map<string, string>, file: string,
                      lead: string, content: string, rest: string, last: char) returns (res: BasicString)
    requires context.Valid() && Free(lead, '{') && Free(content, '}') && Free(rest, '{')
    requires content != "" && content[0] != '{' && content[0] != '%'
    requires files == map[file := File(lead + "{" + content + "}" + rest, last)]
    ensures fresh(res) && res.Valid()
    ensures res.Text() == lead + if rest == "" then "{" else "{}" + rest
  {
    hide Subst, ContentsOf, context.Valid, Holds, Acyclic;
    ghost var item := Braces(content);
    OnePageHolds(file, lead, item, rest, last);
    OneRank(file, lead, item, rest);
    res := Render(file, context, files, OnePage(file, lead, item, rest), map[file := 0]);
    OnePageSubst(map[file := 0], context.Contents(), file, lead, item, rest);
    assert lead + "{" + ("}" + rest) == lead + ("{}" + rest);
  }

  /** An unknown directive ends the page. */
  method RenderUnknown(context: HashMap<string>, files: map<string, string>, file: string,
                       lead: string, expression: string, rest: string, last: char) returns (res: BasicString)
    requires context.Valid() && Free(lead, '{') && Free(expression, '}') && Free(rest, '{')
    requires |expression| < 7 || expression[..7] != "include"
    requires |expression| < 4 || expression[..4] != "when"
    requires files == map[file := File(lead + "{%" + expression + "}" + rest, last)]
    ensures fresh(res) && res.Valid() && res.Text() == lead
  {
    hide Subst, ContentsOf, context.Valid, Holds, Acyclic;
    ghost var item := Unknown(expression);
    OnePageHolds(file, lead, item, rest, last);
    assert lead + "{" + Body(item) + "}" + rest == lead + "{%" + expression + "}" + rest;
    OneRank(file, lead, item, rest);
    res := Render(file, context, files, OnePage(file, lead, item, rest), map[file := 0]);
    OnePageSubst(map[file := 0], context.Contents(), file, lead, item, rest);
  }

  // ----- Includes -----

  /** A file without items is shown as it is. */
  method RenderPlain(context: HashMap<string>, files: map<string, string>, file: string, text: string, last: char)
    returns (res: BasicString)
    requires context.Valid() && Free(text, '{') && files == map[file := File(text, last)]
    ensures fresh(res) && res.Valid() && res.Text() == text
  {
    hide Subst, ContentsOf, context.Valid;
    ghost var site: Site, rank := map[file := Page(text, [])], map[file := 0];
    assert Print(Page(text, [])) == text + "" == text;
    assert File(text, last)[..|text|] == text;
    res := Render(file, context, files, site, rank);
    PlainSubst(site, rank, context.Contents(), file, text);
  }

  lemma {:induction false} PlainSubst(site: Site, rank: map<string, nat>, context: map<string, string>,
                                      file: string, text: string)
    requires Acyclic(site, rank) && file in site && site[file] == Page(text, [])
    ensures Subst(site, rank, context, file) == text
  {
    assert text + "" == text;
  }

  ghost function TwoPages(file: string, lead: string, inner: string, tail: string, text: string): Site {
    map[file := Page(lead, [Segment(Include(inner), tail)]), inner := Page(text, [])]
  }

  lemma {:induction false} TwoPagesHold(file: string, lead: string, inner: string, tail: string, text: string,
                                        last: char, end: char)
    requires file != inner && Free(lead, '{') && Free(inner, '}') && Free(tail, '{') && Free(text, '{')
    ensures Holds(map[file := File(lead + "{%include " + inner + "%}" + tail, last), inner := File(text, end)],
                  TwoPages(file, lead, inner, tail, text))
  {
    var item := Include(inner);
    OnePageHolds(file, lead, item, tail, last);
    assert lead + "{" + Body(item) + "}" + tail == lead + "{%include " + inner + "%}" + tail;
    assert Print(Page(text, [])) == text + "" == text;
    assert File(text, end)[..|text|] == text;
  }

  lemma {:induction false} TwoPagesSubst(context: map<string, string>, file: string, lead: string, inner: string,
                                         tail: string, text: string)
    requires file != inner && tail != ""
    ensures Acyclic(TwoPages(file, lead, inner, tail, text), map[file := 1, inner := 0])
    ensures Subst(TwoPages(file, lead, inner, tail, text), map[file := 1, inner := 0], context, file) ==
      lead + text + tail[1..]
  {
    var site, rank := TwoPages(file, lead, inner, tail, text), map[file := 1, inner := 0];
    PlainSubst(site, rank, context, inner, text);
    assert SubstSegments(site, rank, context, file, 1) == "";
    assert SubstSegments(site, rank, context, file, 0) == text + tail[1..] + "";
    assert lead + (text + tail[1..] + "") == lead + text + tail[1..];
  }

  /** An include is replaced by the included file. */
  method RenderInclude(context: HashMap<string>, files: map<string, string>, file: string, lead: string,
                       inner: string, c: char, rest: string, last: char, text: string, end: char)
    returns (res: BasicString)
    requires context.Valid() && Free(lead, '{') && Discarded(c) && Free(rest, '{') && Free(inner, '}')
    requires file != inner && Free(text, '{')
    requires files == map[file := File(lead + "{%include " + inner + "%}" + [c] + rest, last), inner := File(text, end)]
    ensures fresh(res) && res.Valid() && res.Text() == lead + text + rest
  {
    hide Subst, ContentsOf, context.Valid, Holds, Acyclic;
    ghost var tail := [c] + rest;
    TwoPagesHold(file, lead, inner, tail, text, last, end);
    assert lead + "{%include " + inner + "%}" + tail == lead + "{%include " + inner + "%}" + [c] + rest;
    TwoPagesSubst(context.Contents(), file, lead, inner, tail, text);
    res := Render(file, context, files, TwoPages(file, lead, inner, tail, text), map[file := 1, inner := 0]);
    assert tail[1..] == rest;
  }

  // ----- Files with several items -----

  /** The page of one file is that of another, followed by that of a third. */
  ghost predicate Parts(site: Site, whole: string, first: string, second: string) {
    && whole in site && first in site && second in site
    && site[whole].lead == site[first].lead && site[second].lead == ""
    && site[whole].segments == site[first].segments + site[second].segments
    && forall i | 0 <= i < |site[first].segments| :: !site[first].segments[i].item.Unknown?
  }

  lemma {:induction false} PartsOfText(site: Site, whole: string, first: string, second: string)
    requires Parts(site, whole, first, second)
    ensures Print(site[whole]) == Print(site[first]) + Print(site[second])
  {
    SegmentsText(site[first].segments, site[second].segments);
    var a, b := PrintSegments(site[first].segments), PrintSegments(site[second].segments);
    assert site[whole].lead + (a + b) == (site[first].lead + a) + ("" + b);
  }

  lemma {:induction false} PrintStep(s: seq<Segment>)
    requires s != []
    ensures PrintSegments(s) == "{" + Body(s[0].item) + "}" + s[0].tail + PrintSegments(s[1..])
  {
  }

  lemma {:induction false} PrintNothing()
    ensures PrintSegments([]) == ""
  {
  }

  lemma {:induction false} SegmentsText(a: seq<Segment>, b: seq<Segment>)
    ensures PrintSegments(a + b) == PrintSegments(a) + PrintSegments(b)
  {
    hide Body, PrintSegments;
    if a == [] {
      assert a + b == b;
      PrintNothing();
      assert "" + PrintSegments(b) == PrintSegments(b);
    } else {
      SegmentsText(a[1..], b);
      assert (a + b)[1..] == a[1..] + b;
      PrintStep(a);
      PrintStep(a + b);
      var x, y, z := "{" + Body(a[0].item) + "}" + a[0].tail, PrintSegments(a[1..]), PrintSegments(b);
      assert x + (y + z) == (x + y) + z;
    }
  }

  /** An item and the text behind it, as they are shown. */
  ghost function Shown(site: Site, rank: map<string, nat>, context: map<string, string>, s: Segment): string
    requires Acyclic(site, rank)
  {
    ItemValue(site, rank, context, s.item)
      + if s.tail == "" then "" else if s.item.Braces? then "}" + s.tail else s.tail[1..]
  }

  lemma {:induction false} SegmentStep(site: Site, rank: map<string, nat>, context: map<string, string>,
                                       file: string, i: nat)
    requires Acyclic(site, rank) && file in site && i < |site[file].segments|
    ensures SubstSegments(site, rank, context, file, i) ==
      if site[file].segments[i].item.Unknown? then ""
      else Shown(site, rank, context, site[file].segments[i]) + SubstSegments(site, rank, context, file, i + 1)
  {
    hide Subst, Value;
  }

  lemma {:induction false} NoSegments(site: Site, rank: map<string, nat>, context: map<string, string>, file: string)
    requires Acyclic(site, rank) && file in site
    ensures SubstSegments(site, rank, context, file, |site[file].segments|) == ""
  {
  }

  lemma {:induction false} PartsFrom(site: Site, rank: map<string, nat>, context: map<string, string>,
                                     whole: string, first: string, second: string, i: nat)
    requires Acyclic(site, rank) && Parts(site, whole, first, second) && i <= |site[second].segments|
    ensures SubstSegments(site, rank, context, whole, |site[first].segments| + i) ==
      SubstSegments(site, rank, context, second, i)
    decreases |site[second].segments| - i
  {
    hide SubstSegments, Shown, Acyclic;
    if i < |site[second].segments| {
      PartsFrom(site, rank, context, whole, first, second, i + 1);
      assert site[whole].segments[|site[first].segments| + i] == site[second].segments[i];
      SegmentStep(site, rank, context, whole, |site[first].segments| + i);
      SegmentStep(site, rank, context, second, i);
    } else {
      NoSegments(site, rank, context, whole);
      NoSegments(site, rank, context, second);
    }
  }

  lemma {:induction false} PartsUpTo(site: Site, rank: map<string, nat>, context: map<string, string>,
                                     whole: string, first: string, second: string, i: nat)
    requires Acyclic(site, rank) && Parts(site, whole, first, second) && i <= |site[first].segments|
    ensures SubstSegments(site, rank, context, whole, i) ==
      SubstSegments(site, rank, context, first, i) + SubstSegments(site, rank, context, second, 0)
    decreases |site[first].segments| - i
  {
    hide SubstSegments, Shown, Acyclic;
    if i == |site[first].segments| {
      PartsFrom(site, rank, context, whole, first, second, 0);
      NoSegments(site, rank, context, first);
      assert "" + SubstSegments(site, rank, context, second, 0) == SubstSegments(site, rank, context, second, 0);
    } else {
      PartsUpTo(site, rank, context, whole, first, second, i + 1);
      var s := site[whole].segments[i];
      assert s == site[first].segments[i];
      SegmentStep(site, rank, context, whole, i);
      SegmentStep(site, rank, context, first, i);
      var x := Shown(site, rank, context, s);
      var a, b := SubstSegments(site, rank, context, first, i + 1), SubstSegments(site, rank, context, second, 0);
      assert x + (a + b) == (x + a) + b;
    }
  }

  lemma {:induction false} PartsSubst(site: Site, rank: map<string, nat>, context: map<string, string>,
                                      whole: string, first: string, second: string)
    requires Acyclic(site, rank) && Parts(site, whole, first, second)
    ensures Subst(site, rank, context, whole) == Subst(site, rank, context, first) + Subst(site, rank, context, second)
  {
    hide SubstSegments;
    PartsUpTo(site, rank, context, whole, first, second, 0);
    var a, b := SubstSegments(site, rank, context, first, 0), SubstSegments(site, rank, context, second, 0);
    assert site[whole].lead + (a + b) == (site[first].lead + a) + ("" + b);
  }

  /** A page is rendered part by part: with the laws above, this is all of rendering. */
  method RenderParts(context: HashMap<string>, files: map<string, string>, ghost site: Site,
                     whole: string, first: string, second: string)
    returns (all: BasicString, one: BasicString, two: BasicString)
    requires context.Valid() && NoCycle(site) && Holds(files, site) && Parts(site, whole, first, second)
    ensures all.Valid() && one.Valid() && two.Valid() && all.Text() == one.Text() + two.Text()
  {
    hide Subst, Acyclic, NoCycle, Holds, ContentsOf, context.Valid;
    all := RenderSite(whole, context, files, site);
    ghost var rank :| Acyclic(site, rank);
    one := RenderSite(first, context, files, site);
    two := RenderSite(second, context, files, site);
    PartsSubst(site, rank, context.Contents(), whole, first, second);
  }
}
