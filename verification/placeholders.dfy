/** Placeholder discovery, the defaulting of missing placeholder values, and
    the split of the data map into text and image values
    (ReportGenerationService.java, lines 38, 84-99, 115-124 and 307-366). */
module Placeholders {
  import opened Results
  import opened Documents
  import opened Values

  predicate IsBrace(c: char)
  {
    c == '{' || c == '}'
  }

  /** `t` is a whole match of the placeholder pattern `\$\{[^{}]+\}`:
      `${`, one or more characters other than braces, then `}`. */
  predicate IsToken(t: string)
  {
    && |t| >= 4
    && t[0] == '$' && t[1] == '{' && t[|t| - 1] == '}'
    && forall m :: 2 <= m < |t| - 1 ==> !IsBrace(t[m])
  }

  predicate OccursAt(t: string, s: string, i: nat)
  {
    i + |t| <= |s| && s[i..i + |t|] == t
  }

  ghost predicate Occurs(t: string, s: string)
  {
    exists i: nat :: OccursAt(t, s, i)
  }

  // ---------------------------------------------------------------------
  // The pattern matcher
  // ---------------------------------------------------------------------

  /** The first position at or after `k` that holds a brace, or `|s|`. */
  function BraceFrom(s: string, k: nat): (j: nat)
    requires k <= |s|
    ensures k <= j <= |s|
    ensures forall m :: k <= m < j ==> !IsBrace(s[m])
    ensures j < |s| ==> IsBrace(s[j])
    decreases |s| - k
  {
    if k == |s| || IsBrace(s[k]) then k else BraceFrom(s, k + 1)
  }

  /** The end of the match of the pattern that starts at `i`, if one does:
      the character class cannot hold a brace, so the match closes at the
      first brace after `${`, and only if that brace is `}`. */
  function MatchAt(s: string, i: nat): (e: Option<nat>)
    requires i <= |s|
    ensures e.Some? ==> i + 4 <= e.value <= |s| && IsToken(s[i..e.value])
  {
    if i + 1 < |s| && s[i] == '$' && s[i + 1] == '{' then
      var j := BraceFrom(s, i + 2);
      if j < |s| && s[j] == '}' && j > i + 2 then Some(j + 1) else None
    else None
  }

  /** A token occurring at `i` is exactly the match found there. */
  lemma MatchAtComplete(s: string, i: nat, e: nat)
    requires i + 4 <= e <= |s| && IsToken(s[i..e])
    ensures MatchAt(s, i) == Some(e)
  {
    var t := s[i..e];
    assert s[i] == t[0] && s[i + 1] == t[1] && s[e - 1] == t[|t| - 1];
    assert forall m :: i + 2 <= m < e - 1 ==> s[m] == t[m - i];
  }

  /** Two matches never overlap: a token occurring at `p` cannot start
      strictly inside a token that occupies `s[q..e]`. */
  lemma NoOverlap(s: string, q: nat, e: nat, t: string, p: nat)
    requires q + 4 <= e <= |s| && IsToken(s[q..e])
    requires IsToken(t) && OccursAt(t, s, p)
    ensures p <= q || e <= p
  {
    var u := s[q..e];
    assert s[p] == t[0] && s[p + 1] == t[1];
    assert forall m :: q <= m < e ==> s[m] == u[m - q];
  }

  /** The tokens `Matcher.find` reports when it resumes at position `i`. */
  function ScanFrom(s: string, i: nat): (r: set<string>)
    requires i <= |s|
    ensures forall t | t in r :: IsToken(t)
    decreases |s| - i
  {
    if i == |s| then {}
    else match MatchAt(s, i)
      case Some(e) => {s[i..e]} + ScanFrom(s, e)
      case None => ScanFrom(s, i + 1)
  }

  /** Everything reported from position `i` on is a token occurring there. */
  lemma {:induction false} ScanFromSound(s: string, i: nat, t: string)
    requires i <= |s|
    requires t in ScanFrom(s, i)
    ensures IsToken(t) && exists p: nat :: i <= p && OccursAt(t, s, p)
    decreases |s| - i
  {
    match MatchAt(s, i)
    case Some(e) =>
      if t == s[i..e] {
        assert OccursAt(t, s, i);
      } else {
        ScanFromSound(s, e, t);
      }
    case None =>
      ScanFromSound(s, i + 1, t);
  }

  /** Every token occurring at or after position `i` is reported. */
  lemma {:induction false} ScanFromComplete(s: string, i: nat, t: string, p: nat)
    requires i <= p
    requires IsToken(t) && OccursAt(t, s, p)
    ensures t in ScanFrom(s, i)
    decreases |s| - i
  {
    if p == i {
      MatchAtComplete(s, i, i + |t|);
    } else {
      match MatchAt(s, i)
      case Some(e) =>
        NoOverlap(s, i, e, t, p);
        ScanFromComplete(s, e, t, p);
      case None =>
        ScanFromComplete(s, i + 1, t, p);
    }
  }

  /** Every token the placeholder pattern finds in `s`. */
  function Scan(s: string): (r: set<string>)
    ensures forall t | t in r :: IsToken(t)
  {
    ScanFrom(s, 0)
  }

  /** The scanner reports exactly the substrings of `s` that are tokens. */
  lemma ScanIff(s: string, t: string)
    ensures t in Scan(s) <==> IsToken(t) && Occurs(t, s)
  {
    if t in Scan(s) {
      ScanFromSound(s, 0, t);
    }
    if IsToken(t) && Occurs(t, s) {
      var p: nat :| OccursAt(t, s, p);
      ScanFromComplete(s, 0, t, p);
    }
  }

  // ---------------------------------------------------------------------
  // Scanning the document
  // ---------------------------------------------------------------------

  /** The tokens of a paragraph: the pattern is matched against the
      concatenated text of all its runs. */
  function ParagraphKeys(p: Paragraph): (r: set<string>)
    ensures forall t | t in r :: IsToken(t)
  {
    Scan(ParagraphText(p))
  }

  function ParagraphsKeys(ps: seq<Paragraph>): (r: set<string>)
    ensures forall t | t in r :: IsToken(t)
  {
    if ps == [] then {} else ParagraphKeys(ps[0]) + ParagraphsKeys(ps[1..])
  }

  /** Only a top-level paragraph, and the paragraphs directly inside the
      cells of a top-level table, are scanned. */
  function BlockKeys(b: Block): (r: set<string>)
    ensures forall t | t in r :: IsToken(t)
  {
    match b
    case Para(p) => ParagraphKeys(p)
    case Tbl(t) => ParagraphsKeys(TableParagraphs(t))
    case Container(_) => {}
  }

  /** `getKeysFromDocxFile`: the tokens of every scanned paragraph. */
  function DocumentKeys(body: seq<Block>): (r: set<string>)
    ensures forall t | t in r :: IsToken(t)
  {
    if body == [] then {} else BlockKeys(body[0]) + DocumentKeys(body[1..])
  }

  /** Whether block `b` puts paragraph `p` in front of the scanner. */
  ghost predicate ScannedIn(b: Block, p: Paragraph)
  {
    || (b.Para? && b.p == p)
    || (b.Tbl? && InTableCell(b.t, p))
  }

  lemma {:induction false} ParagraphsKeysIff(ps: seq<Paragraph>, t: string)
    ensures t in ParagraphsKeys(ps) <==> exists p :: p in ps && t in ParagraphKeys(p)
  {
    if ps != [] {
      ParagraphsKeysIff(ps[1..], t);
      if exists p :: p in ps && t in ParagraphKeys(p) {
        var p :| p in ps && t in ParagraphKeys(p);
        if p != ps[0] {
          assert p in ps[1..];
        }
      }
    }
  }

  lemma BlockKeysIff(b: Block, t: string)
    ensures t in BlockKeys(b) <==> exists p :: ScannedIn(b, p) && t in ParagraphKeys(p)
  {
    match b
    case Para(p) =>
    case Tbl(tb) =>
      ParagraphsKeysIff(TableParagraphs(tb), t);
      forall p ensures p in TableParagraphs(tb) <==> InTableCell(tb, p) {
        TableParagraphsMember(tb, p);
      }
    case Container(_) =>
  }

  lemma {:induction false} DocumentKeysIff(body: seq<Block>, t: string)
    ensures t in DocumentKeys(body) <==>
      exists i, p :: 0 <= i < |body| && ScannedIn(body[i], p) && t in ParagraphKeys(p)
  {
    if body != [] {
      DocumentKeysIff(body[1..], t);
      BlockKeysIff(body[0], t);
      if t in DocumentKeys(body[1..]) {
        var i, p :| 0 <= i < |body[1..]| && ScannedIn(body[1..][i], p) && t in ParagraphKeys(p);
        assert ScannedIn(body[i + 1], p);
      }
      if exists i, p :: 0 <= i < |body| && ScannedIn(body[i], p) && t in ParagraphKeys(p) {
        var i, p :| 0 <= i < |body| && ScannedIn(body[i], p) && t in ParagraphKeys(p);
        if i > 0 {
          assert ScannedIn(body[1..][i - 1], p);
        }
      }
    }
  }

  /** The scanner collects exactly the tokens occurring in the text of a
      top-level paragraph or of a paragraph in a cell of a top-level table. */
  lemma ScannerFindsExactlyTheTokens(body: seq<Block>, t: string)
    ensures t in DocumentKeys(body) <==>
      IsToken(t) && exists i, p :: 0 <= i < |body| && ScannedIn(body[i], p) && Occurs(t, ParagraphText(p))
  {
    DocumentKeysIff(body, t);
    forall p ensures t in ParagraphKeys(p) <==> IsToken(t) && Occurs(t, ParagraphText(p)) {
      ScanIff(ParagraphText(p), t);
    }
  }

  /** What a container holds is never scanned: replacing it by any other
      container leaves the collected keys as they were. */
  lemma ContainersAreNotScanned(body: seq<Block>, i: nat, ps: seq<Paragraph>)
    requires i < |body| && body[i].Container?
    ensures DocumentKeys(body[i := Container(ps)]) == DocumentKeys(body)
  {
    var body' := body[i := Container(ps)];
    forall t ensures t in DocumentKeys(body') <==> t in DocumentKeys(body) {
      DocumentKeysIff(body, t);
      DocumentKeysIff(body', t);
      if t in DocumentKeys(body') {
        var j, p :| 0 <= j < |body'| && ScannedIn(body'[j], p) && t in ParagraphKeys(p);
        assert ScannedIn(body[j], p);
      }
      if t in DocumentKeys(body) {
        var j, p :| 0 <= j < |body| && ScannedIn(body[j], p) && t in ParagraphKeys(p);
        assert ScannedIn(body'[j], p);
      }
    }
  }

  /** A placeholder whose text is split over two runs of one paragraph is
      still found. */
  lemma SplitPlaceholderIsFound(pPr: Option<ParagraphProperties>, a: string, b: string, x: NodeId, y: NodeId)
    requires IsToken(a + b)
    ensures a + b in ParagraphKeys(Paragraph(pPr, [Run([Text(x, a)]), Run([Text(y, b)])]))
  {
    var p := Paragraph(pPr, [Run([Text(x, a)]), Run([Text(y, b)])]);
    assert RunText([Text(x, a)]) == a;
    assert RunText([Text(y, b)]) == b;
    assert ChildrenText(p.content[1..]) == b;
    assert ParagraphText(p) == a + b;
    assert OccursAt(a + b, ParagraphText(p), 0);
    ScanIff(ParagraphText(p), a + b);
  }

  // ---------------------------------------------------------------------
  // Keys inside tokens
  // ---------------------------------------------------------------------

  /** The token a data key stands for: `String.format("${%s}", key)`. */
  function Wrap(key: string): string
  {
    "${" + key + "}"
  }

  /** `String.indexOf`: the first position of `c` in `s`, or -1. */
  function IndexOf(s: string, c: char): (r: int)
    ensures -1 <= r < |s|
    ensures r == -1 <==> c !in s
    ensures r >= 0 ==> s[r] == c && forall m :: 0 <= m < r ==> s[m] != c
  {
    if s == [] then -1
    else if s[0] == c then 0
    else
      var k := IndexOf(s[1..], c);
      assert forall m :: 1 <= m < |s| ==> s[m] == s[1..][m - 1];
      if k == -1 then -1 else k + 1
  }

  /** The bare key of a token: the text between its first `{` and its
      first `}`. */
  function InnerKey(t: string): (k: string)
    requires IsToken(t)
    ensures |k| >= 1 && forall m :: 0 <= m < |k| ==> !IsBrace(k[m])
    ensures Wrap(k) == t
  {
    var open := IndexOf(t, '{');
    var close := IndexOf(t, '}');
    assert t[1] == '{' && open == 1;
    assert t[|t| - 1] == '}';
    assert close == |t| - 1;
    t[open + 1 .. close]
  }

  /** Wrapping a non-empty brace-free key gives a token whose bare key is
      that key again. */
  lemma InnerKeyOfWrap(k: string)
    requires |k| >= 1 && forall m :: 0 <= m < |k| ==> !IsBrace(k[m])
    ensures IsToken(Wrap(k)) && InnerKey(Wrap(k)) == k
  {
    var t := Wrap(k);
    assert forall m :: 2 <= m < |t| - 1 ==> t[m] == k[m - 2];
    assert t == "${" + InnerKey(t) + "}";
  }

  /** The keys of a data map, each wrapped as a token. */
  function Wrapped(keys: set<string>): set<string>
  {
    set k | k in keys :: Wrap(k)
  }

  /** A token is among the wrapped data keys exactly when its bare key is
      a data key. */
  lemma WrappedIff(keys: set<string>, t: string)
    requires IsToken(t)
    ensures t in Wrapped(keys) <==> InnerKey(t) in keys
  {
    if t in Wrapped(keys) {
      var k :| k in keys && Wrap(k) == t;
      assert k == t[2..|t| - 1];
      assert InnerKey(t) == t[2..|t| - 1];
    }
  }

  // ---------------------------------------------------------------------
  // Defaulting missing keys
  // ---------------------------------------------------------------------

  /** The value given to a placeholder the data map lacks: six spaces. */
  const Blank: string := "      "

  /** The bare keys of the requested tokens whose wrapped form is not a
      data key. */
  function MissingKeys(requested: set<string>, data: map<string, Value>): set<string>
    requires forall t | t in requested :: IsToken(t)
  {
    set t | t in requested && t !in Wrapped(data.Keys) :: InnerKey(t)
  }

  /** The data map after `verifyPlaceholderMap`: each missing key is added
      with the value `Blank`. */
  function Defaulted(requested: set<string>, data: map<string, Value>): (r: map<string, Value>)
    requires forall t | t in requested :: IsToken(t)
    ensures forall t | t in requested :: InnerKey(t) in r
    ensures forall k | k in data :: k in r && r[k] == data[k]
    ensures forall k | k in r && k !in data ::
      r[k] == Str(Blank) && exists t :: t in requested && InnerKey(t) == k
  {
    var missing := MissingKeys(requested, data);
    forall t | t in requested ensures InnerKey(t) in data || InnerKey(t) in missing {
      WrappedIff(data.Keys, t);
    }
    forall k | k in missing ensures k !in data {
      var t :| t in requested && t !in Wrapped(data.Keys) && InnerKey(t) == k;
      WrappedIff(data.Keys, t);
    }
    data + BlankFor(missing)
  }

  /** Each of `keys` mapped to `Blank`. */
  function BlankFor(keys: set<string>): map<string, Value>
  {
    map k | k in keys :: Str(Blank)
  }

  lemma BlankForAdd(data: map<string, Value>, keys: set<string>, k: string)
    ensures data + BlankFor(keys + {k}) == (data + BlankFor(keys))[k := Str(Blank)]
  {
  }

  /** `verifyPlaceholderMap`, one requested token at a time. */
  method VerifyPlaceholderMap(requested: set<string>, data: map<string, Value>) returns (r: map<string, Value>)
    requires forall t | t in requested :: IsToken(t)
    ensures r == Defaulted(requested, data)
  {
    var wrapped := Wrapped(data.Keys);
    r := data;
    var todo := requested;
    assert MissingKeys(requested - todo, data) == {};
    assert data + BlankFor({}) == data;
    while todo != {}
      invariant todo <= requested
      invariant r == data + BlankFor(MissingKeys(requested - todo, data))
      decreases |todo|
    {
      var t :| t in todo;
      var done := requested - todo;
      MissingKeysStep(done, t, data);
      if t !in wrapped {
        BlankForAdd(data, MissingKeys(done, data), InnerKey(t));
        r := r[InnerKey(t) := Str(Blank)];
      }
      assert requested - (todo - {t}) == done + {t};
      todo := todo - {t};
    }
    assert requested - todo == requested;
  }

  lemma MissingKeysStep(done: set<string>, t: string, data: map<string, Value>)
    requires forall u | u in done :: IsToken(u)
    requires IsToken(t)
    ensures MissingKeys(done + {t}, data) ==
      if t in Wrapped(data.Keys) then MissingKeys(done, data)
      else MissingKeys(done, data) + {InnerKey(t)}
  {
  }

  /** A template asking for two placeholders, say `${name}` and
      `${mobile}`, with only the first key supplied: the second key is
      added as six spaces and the first keeps its value. */
  lemma MissingKeyIsBlanked(present: string, absent: string, v: Value)
    requires IsToken(present) && IsToken(absent) && InnerKey(present) != InnerKey(absent)
    ensures Defaulted({present, absent}, map[InnerKey(present) := v]) ==
      map[InnerKey(present) := v, InnerKey(absent) := Str(Blank)]
  {
    var data := map[InnerKey(present) := v];
    WrappedIff(data.Keys, present);
    WrappedIff(data.Keys, absent);
    assert MissingKeys({}, data) == {};
    MissingKeysStep({}, present, data);
    assert {} + {present} == {present};
    MissingKeysStep({present}, absent, data);
    assert {present} + {absent} == {present, absent};
    assert MissingKeys({present, absent}, data) == {InnerKey(absent)};
    assert BlankFor({InnerKey(absent)}) == map[InnerKey(absent) := Str(Blank)];
  }

  // ---------------------------------------------------------------------
  // Text and image values
  // ---------------------------------------------------------------------

  /** The string entries of the data map. */
  function TextValues(data: map<string, Value>): map<string, string>
  {
    map k | k in data && data[k].Str? :: data[k].s
  }

  /** The image-resource entries of the data map. */
  function ImageValues(data: map<string, Value>): map<string, Resource>
  {
    map k | k in data && data[k].Image? :: data[k].resource
  }

  /** The split sends every string to the text map and every resource to
      the image map, and drops the other values. */
  lemma PartitionOfValues(data: map<string, Value>, k: string)
    ensures k in TextValues(data) <==> k in data && data[k].Str?
    ensures k in ImageValues(data) <==> k in data && data[k].Image?
    ensures k in TextValues(data) ==> data[k] == Str(TextValues(data)[k])
    ensures k in ImageValues(data) ==> data[k] == Image(ImageValues(data)[k])
    ensures k !in TextValues(data) || k !in ImageValues(data)
    ensures k in data && k !in TextValues(data) && k !in ImageValues(data) <==> k in data && data[k] == OtherValue
  {
  }

  /** Lines 93-99: one pass over the data map that fills the two maps. */
  method SeparatePlaceholders(data: map<string, Value>) returns (texts: map<string, string>, images: map<string, Resource>)
    ensures texts == TextValues(data)
    ensures images == ImageValues(data)
  {
    texts, images := map[], map[];
    var todo := data.Keys;
    while todo != {}
      invariant todo <= data.Keys
      invariant texts == TextValues(data - todo)
      invariant images == ImageValues(data - todo)
      decreases |todo|
    {
      var k :| k in todo;
      if data[k].Str? {
        texts := texts[k := data[k].s];
      } else if data[k].Image? {
        images := images[k := data[k].resource];
      }
      todo := todo - {k};
    }
  }

  /** Every key the verifier adds is a text value of six spaces. */
  lemma DefaultsAreText(requested: set<string>, data: map<string, Value>, t: string)
    requires forall u | u in requested :: IsToken(u)
    requires t in requested && InnerKey(t) !in data
    ensures TextValues(Defaulted(requested, data))[InnerKey(t)] == Blank
  {
  }

  /** The defaults are strings, so defaulting leaves the image map as the
      caller's. */
  lemma DefaultedKeepsImages(requested: set<string>, data: map<string, Value>)
    requires forall t | t in requested :: IsToken(t)
    ensures ImageValues(Defaulted(requested, data)) == ImageValues(data)
  {
    var r := Defaulted(requested, data);
    forall k ensures k in ImageValues(r) <==> k in ImageValues(data) {
      PartitionOfValues(r, k);
      PartitionOfValues(data, k);
    }
  }
}
