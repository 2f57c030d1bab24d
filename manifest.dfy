/**
  The repository manager's `addons.xml` builder: it merges the `addon.xml` lines
  of all addons into a map keyed by addon id and rendered version, then writes
  one cleaned block per entry inside a fixed `<addons>` envelope.
 */
module Manifest {
  import opened Wrappers
  import opened Text
  import opened Versions
  import opened Dicts
  import opened Addons

  /** The XML declaration and the opening `<addons>` tag. */
  const OpeningTags: string := XmlDeclaration + " version=\"1.0\" encoding=\"UTF-8\"?>\n<addons>"

  /** The opening of the file. */
  const Header: string := OpeningTags + "\n"

  /** The closing tag. */
  const ClosingTag: string := "</addons>\n"

  /** What is appended after the stripped body. */
  const Footer: string := "\n" + ClosingTag

  /** Lines containing this are XML declarations and are dropped from every block. */
  const XmlDeclaration: string := "<?xml"

  /** `addon_xml_files`: addon id, then rendered version, then the lines of `addon.xml`. */
  type Files = Dict<string, Dict<string, seq<string>>>

  ghost predicate FilesValid(m: Files)
  {
    m.Valid() && forall id | id in m.items :: m.items[id].Valid()
  }

  // ---------------------------------------------------------------------------
  // The merge map
  // ---------------------------------------------------------------------------

  /**
    One step of the merge loop: the addon's lines are stored under its id and rendered
    version, replacing the lines of an earlier addon with the same pair in place.
   */
  function Record(m: Files, a: Addon): (r: Files)
    requires FilesValid(m)
    ensures FilesValid(r)
    ensures r.keys == if a.id in m.items then m.keys else m.keys + [a.id]
    ensures r.items == m.items[a.id := VersionsOf(m, a.id).Put(Str(a.version), a.xmlLines)]
  {
    m.Put(a.id, VersionsOf(m, a.id).Put(Str(a.version), a.xmlLines))
  }

  /** The versions stored for `id` so far, none if the id is new. */
  function VersionsOf(m: Files, id: string): (d: Dict<string, seq<string>>)
    requires FilesValid(m)
    ensures d.Valid()
  {
    if id in m.items then m.items[id] else Empty()
  }

  /** The rendered versions of the addons with id `id`, in scan order. */
  function Rendered(s: seq<Addon>, id: string): seq<string>
  {
    if s == [] then []
    else
      var a := s[|s| - 1];
      Rendered(s[..|s| - 1], id) + if a.id == id then [Str(a.version)] else []
  }

  lemma RenderedSnoc(s: seq<Addon>, a: Addon, id: string)
    ensures Rendered(s + [a], id) == Rendered(s, id) + if a.id == id then [Str(a.version)] else []
  {
    assert (s + [a])[..|s|] == s;
  }

  /** The merge loop over `get_all_addons`. */
  function Merge(s: seq<Addon>): (m: Files)
    ensures FilesValid(m)
  {
    if s == [] then Empty() else Record(Merge(s[..|s| - 1]), s[|s| - 1])
  }

  lemma MergeSnoc(s: seq<Addon>, a: Addon)
    ensures Merge(s + [a]) == Record(Merge(s), a)
  {
    assert (s + [a])[..|s|] == s;
  }

  lemma MergePrefix(s: seq<Addon>, i: nat)
    requires i < |s|
    ensures Merge(s[..i + 1]) == Record(Merge(s[..i]), s[i])
  {
    assert s[..i + 1][..i] == s[..i];
  }

  /** The emission order of a merge map built from `s`. */
  ghost predicate MergeOrdered(s: seq<Addon>, m: Files)
    requires FilesValid(m)
  {
    m.keys == FirstOccurrences(Ids(s)) &&
    forall id | id in m.items :: m.items[id].keys == FirstOccurrences(Rendered(s, id))
  }

  /**
    Emission order: the ids appear in the order they were first seen, and within an
    id its rendered versions in the order they were first seen; overwriting the lines
    of a pair does not move it.
   */
  lemma {:induction false} MergeOrder(s: seq<Addon>)
    ensures Merge(s).keys == FirstOccurrences(Ids(s))
    ensures forall id | id in Merge(s).items :: Merge(s).items[id].keys == FirstOccurrences(Rendered(s, id))
  {
    MergeIsOrdered(s);
  }

  lemma {:induction false} MergeIsOrdered(s: seq<Addon>)
    ensures MergeOrdered(s, Merge(s))
  {
    if s != [] {
      var p := s[..|s| - 1];
      var a := s[|s| - 1];
      assert p + [a] == s;
      MergeSnoc(p, a);
      MergeIsOrdered(p);
      MergeOrderStep(p, a, Merge(p));
    }
  }

  lemma MergeOrderStep(p: seq<Addon>, a: Addon, m: Files)
    requires FilesValid(m) && MergeOrdered(p, m)
    ensures MergeOrdered(p + [a], Record(m, a))
  {
    var r := Record(m, a);
    IdsSnoc(p, a);
    FirstOccurrencesSnoc(Ids(p), a.id);
    forall id | id in r.items
      ensures r.items[id].keys == FirstOccurrences(Rendered(p + [a], id))
    {
      if id == a.id {
        RenderedSnoc(p, a, id);
        VersionOrderStep(p, a, m);
      } else {
        OtherIdOrderStep(p, a, m, id);
      }
    }
  }

  lemma OtherIdOrderStep(p: seq<Addon>, a: Addon, m: Files, id: string)
    requires FilesValid(m) && MergeOrdered(p, m)
    requires id != a.id && id in Record(m, a).items
    ensures Record(m, a).items[id].keys == FirstOccurrences(Rendered(p + [a], id))
  {
    RenderedSnoc(p, a, id);
    assert Rendered(p + [a], id) == Rendered(p, id);
  }

  lemma VersionOrderStep(p: seq<Addon>, a: Addon, m: Files)
    requires FilesValid(m) && MergeOrdered(p, m)
    ensures Record(m, a).items[a.id].keys == FirstOccurrences(Rendered(p, a.id) + [Str(a.version)])
  {
    FirstOccurrencesSnoc(Rendered(p, a.id), Str(a.version));
    if a.id !in m.items {
      NoIdNoVersions(p, a.id);
      assert FirstOccurrences<string>([]) == [];
    }
  }

  lemma {:induction false} NoIdNoVersions(s: seq<Addon>, id: string)
    requires id !in Ids(s)
    ensures Rendered(s, id) == []
  {
    if s != [] {
      var p := s[..|s| - 1];
      assert p + [s[|s| - 1]] == s;
      IdsSnoc(p, s[|s| - 1]);
      NoIdNoVersions(p, id);
    }
  }

  /** The last addon in `s` with id `id` and rendered version `v`, if any. */
  function LastWith(s: seq<Addon>, id: string, v: string): (r: Option<Addon>)
    ensures r.Some? ==> r.value in s && r.value.id == id && Str(r.value.version) == v
    ensures r.None? ==> forall a | a in s :: !(a.id == id && Str(a.version) == v)
  {
    if s == [] then None
    else
      var a := s[|s| - 1];
      if a.id == id && Str(a.version) == v then Some(a) else LastWith(s[..|s| - 1], id, v)
  }

  /**
    Every (id, rendered version) pair of the scanned addons has an entry, and its lines
    are those of the last addon with that pair: a later addon overwrites an earlier one.
   */
  lemma {:induction false} MergeLastWins(s: seq<Addon>, id: string, v: string)
    ensures id in Merge(s).items && v in Merge(s).items[id].items <==> LastWith(s, id, v).Some?
    ensures LastWith(s, id, v).Some? ==> Merge(s).items[id].items[v] == LastWith(s, id, v).value.xmlLines
  {
    if s != [] {
      var p := s[..|s| - 1];
      MergeLastWins(p, id, v);
      RecordLookup(Merge(p), s[|s| - 1], id, v);
    }
  }

  /** After recording `a`, a pair is present when it is `a`'s or was present before; `a`'s lines win. */
  lemma RecordLookup(m: Files, a: Addon, id: string, v: string)
    requires FilesValid(m)
    ensures var r := Record(m, a);
            id in r.items && v in r.items[id].items
            <==> (a.id == id && Str(a.version) == v) || (id in m.items && v in m.items[id].items)
    ensures var r := Record(m, a);
            a.id == id && Str(a.version) == v ==> r.items[id].items[v] == a.xmlLines
    ensures var r := Record(m, a);
            !(a.id == id && Str(a.version) == v) && id in m.items && v in m.items[id].items
            ==> r.items[id].items[v] == m.items[id].items[v]
  {
  }

  lemma LastWithAppend(f: seq<Addon>, g: seq<Addon>, id: string, v: string)
    ensures LastWith(f + g, id, v) == if LastWith(g, id, v).Some? then LastWith(g, id, v) else LastWith(f, id, v)
    decreases |g|
  {
    if g == [] {
      assert f + g == f;
    } else {
      assert (f + g)[..|f + g| - 1] == f + g[..|g| - 1];
      LastWithAppend(f, g[..|g| - 1], id, v);
    }
  }

  /**
    `get_all_addons` yields the new addons before those already in the repository,
    so when both have an addon with the same id and rendered version, the text of
    the one already in the repository is what the manifest keeps.
   */
  lemma InRepoTextWins(newAddons: seq<Addon>, inRepo: seq<Addon>, a: Addon)
    requires a in inRepo
    ensures var m := Merge(newAddons + inRepo);
            a.id in m.items && Str(a.version) in m.items[a.id].items &&
            m.items[a.id].items[Str(a.version)] == LastWith(inRepo, a.id, Str(a.version)).value.xmlLines
  {
    var v := Str(a.version);
    assert LastWith(inRepo, a.id, v).Some?;
    LastWithAppend(newAddons, inRepo, a.id, v);
    MergeLastWins(newAddons + inRepo, a.id, v);
  }

  // ---------------------------------------------------------------------------
  // The entries, in emission order
  // ---------------------------------------------------------------------------

  function Pairs(id: string, vs: seq<string>): (ps: seq<(string, string)>)
    ensures |ps| == |vs| && forall i :: 0 <= i < |vs| ==> ps[i] == (id, vs[i])
  {
    seq(|vs|, i requires 0 <= i < |vs| => (id, vs[i]))
  }

  /** The (id, rendered version) pairs of the first `n` ids, in the order the emission loops visit them. */
  function Entries(m: Files, n: nat): (es: seq<(string, string)>)
    requires FilesValid(m) && n <= |m.keys|
    ensures Stored(m, es)
  {
    if n == 0 then []
    else
      var id := m.keys[n - 1];
      Entries(m, n - 1) + Pairs(id, m.items[id].keys)
  }

  lemma {:induction false} EntriesDistinct(m: Files, n: nat)
    requires FilesValid(m) && n <= |m.keys|
    ensures Distinct(Entries(m, n))
  {
    if n != 0 {
      var id := m.keys[n - 1];
      EntriesDistinct(m, n - 1);
      var e: seq<(string, string)> := Entries(m, n - 1);
      var q: seq<(string, string)> := Pairs(id, m.items[id].keys);
      forall i, j | 0 <= i < j < |e + q| ensures (e + q)[i] != (e + q)[j] {
        if i < |e| && j >= |e| {
          EntryIn(m, n - 1, e[i].0, e[i].1);
          assert (e + q)[j].0 == id;
          assert id !in m.keys[..n - 1] by {
            forall k | 0 <= k < n - 1 ensures m.keys[k] != id { }
          }
        }
      }
    }
  }

  lemma {:induction false} EntryIn(m: Files, n: nat, id: string, v: string)
    requires FilesValid(m) && n <= |m.keys|
    ensures (id, v) in Entries(m, n) <==> id in m.keys[..n] && id in m.items && v in m.items[id].items
  {
    if n != 0 {
      EntryIn(m, n - 1, id, v);
      assert m.keys[..n] == m.keys[..n - 1] + [m.keys[n - 1]];
    }
  }

  /**
    There is exactly one entry, so one block, per distinct (id, rendered version)
    pair of the scanned addons.
   */
  lemma OneEntryPerPair(s: seq<Addon>, id: string, v: string)
    ensures Distinct(Entries(Merge(s), |Merge(s).keys|))
    ensures (id, v) in Entries(Merge(s), |Merge(s).keys|)
            <==> exists a | a in s :: a.id == id && Str(a.version) == v
  {
    var m := Merge(s);
    EntriesDistinct(m, |m.keys|);
    EntryIn(m, |m.keys|, id, v);
    assert m.keys[..|m.keys|] == m.keys;
    MergeLastWins(s, id, v);
  }

  // ---------------------------------------------------------------------------
  // The text
  // ---------------------------------------------------------------------------

  /** The inner loop: lines with an XML declaration are dropped, the others right-stripped and ended by a newline. */
  function CleanLines(lines: seq<string>): string
  {
    if lines == [] then ""
    else
      var line := lines[|lines| - 1];
      CleanLines(lines[..|lines| - 1]) + if Contains(line, XmlDeclaration) then "" else RStrip(line) + "\n"
  }

  /** One addon's block: the cleaned lines right-stripped as a whole, then a blank line. */
  function Block(lines: seq<string>): string
  {
    RStrip(CleanLines(lines)) + "\n\n"
  }

  /** The blocks of the first `n` versions of one id, in order. */
  function VersionBlocks(d: Dict<string, seq<string>>, n: nat): string
    requires d.Valid() && n <= |d.keys|
  {
    if n == 0 then ""
    else VersionBlocks(d, n - 1) + Block(d.items[d.keys[n - 1]])
  }

  /** The blocks of the first `n` ids, in order. */
  function Body(m: Files, n: nat): string
    requires FilesValid(m) && n <= |m.keys|
  {
    if n == 0 then ""
    else
      var d := m.items[m.keys[n - 1]];
      Body(m, n - 1) + VersionBlocks(d, |d.keys|)
  }

  /** The text `create_repo_addons_xml` saves for the addons `s`, in the order `get_all_addons` yields them. */
  function AddonsXml(s: seq<Addon>): string
  {
    var m := Merge(s);
    Strip(Header + Body(m, |m.keys|)) + Footer
  }

  /** Every pair in `es` names an entry of `m`. */
  ghost predicate Stored(m: Files, es: seq<(string, string)>)
  {
    forall e | e in es :: e.0 in m.items && e.1 in m.items[e.0].items
  }

  /** The blocks for a list of entries, concatenated. */
  function Blocks(m: Files, es: seq<(string, string)>): string
    requires Stored(m, es)
  {
    if es == [] then ""
    else
      var e := es[|es| - 1];
      Blocks(m, es[..|es| - 1]) + Block(m.items[e.0].items[e.1])
  }

  lemma {:induction false} BlocksAppend(m: Files, e1: seq<(string, string)>, e2: seq<(string, string)>)
    requires Stored(m, e1 + e2)
    ensures Blocks(m, e1 + e2) == Blocks(m, e1) + Blocks(m, e2)
    decreases |e2|
  {
    if e2 == [] {
      assert e1 + e2 == e1;
    } else {
      var p := e2[..|e2| - 1];
      var e := e2[|e2| - 1];
      assert (e1 + e2)[..|e1 + e2| - 1] == e1 + p;
      assert (e1 + e2)[|e1 + e2| - 1] == e;
      BlocksAppend(m, e1, p);
      var b := Block(m.items[e.0].items[e.1]);
      assert Blocks(m, e1 + e2) == Blocks(m, e1 + p) + b;
      Associative(Blocks(m, e1), Blocks(m, p), b);
    }
  }

  lemma {:induction false} VersionBlocksArePairBlocks(m: Files, id: string, n: nat)
    requires FilesValid(m) && id in m.items && n <= |m.items[id].keys|
    ensures VersionBlocks(m.items[id], n) == Blocks(m, Pairs(id, m.items[id].keys[..n]))
  {
    if n != 0 {
      var vs := m.items[id].keys;
      VersionBlocksArePairBlocks(m, id, n - 1);
      assert Pairs(id, vs[..n])[..n - 1] == Pairs(id, vs[..n - 1]);
    }
  }

  /** The body is one block per entry, in entry order. */
  lemma {:induction false} BodyIsBlocksOfEntries(m: Files, n: nat)
    requires FilesValid(m) && n <= |m.keys|
    ensures Body(m, n) == Blocks(m, Entries(m, n))
  {
    if n == 0 {
      NothingEmitted(m);
    } else {
      BodyIsBlocksOfEntries(m, n - 1);
      BodyBlocksStep(m, n);
    }
  }

  lemma BodyBlocksStep(m: Files, n: nat)
    requires FilesValid(m) && 0 < n <= |m.keys|
    requires Body(m, n - 1) == Blocks(m, Entries(m, n - 1))
    ensures Body(m, n) == Blocks(m, Entries(m, n))
  {
    BodyStep(m, n);
    EntriesStep(m, n);
  }

  lemma NothingEmitted(m: Files)
    requires FilesValid(m)
    ensures Body(m, 0) == "" && Blocks(m, Entries(m, 0)) == ""
  {
  }

  lemma BodyStep(m: Files, n: nat)
    requires FilesValid(m) && 0 < n <= |m.keys|
    ensures var d := m.items[m.keys[n - 1]];
            Body(m, n) == Body(m, n - 1) + VersionBlocks(d, |d.keys|)
  {
  }

  lemma EntriesStep(m: Files, n: nat)
    requires FilesValid(m) && 0 < n <= |m.keys|
    ensures var d := m.items[m.keys[n - 1]];
            Blocks(m, Entries(m, n)) == Blocks(m, Entries(m, n - 1)) + VersionBlocks(d, |d.keys|)
  {
    var id := m.keys[n - 1];
    var vs := m.items[id].keys;
    VersionBlocksArePairBlocks(m, id, |vs|);
    assert vs[..|vs|] == vs;
    BlocksAppend(m, Entries(m, n - 1), Pairs(id, vs));
  }

  // ---------------------------------------------------------------------------
  // Properties of the text
  // ---------------------------------------------------------------------------

  /** Stripping a text that starts with a tag followed by a newline only right-strips what follows. */
  lemma StripAfterTag(tag: string, body: string)
    requires tag != [] && !IsSpace(tag[0]) && !IsSpace(tag[|tag| - 1])
    ensures Strip(tag + "\n" + body) == if RStrip(body) == [] then tag else tag + "\n" + RStrip(body)
  {
    RStripAppend(tag + "\n", body);
    RStripAppend(tag, "\n");
    assert RStrip("\n") == [];
    assert RStrip(tag) == tag;
    assert LStrip(tag) == tag;
    var t := tag + "\n" + RStrip(body);
    assert t[0] == tag[0];
    assert LStrip(t) == t;
  }

  lemma OpeningTagsEnds()
    ensures OpeningTags != [] && OpeningTags[0] == '<' && OpeningTags[|OpeningTags| - 1] == '>'
  {
    assert XmlDeclaration[0] == '<';
  }

  /**
    Only the final string is stripped, and the header starts with no white space, so
    the manifest is the header, the right-stripped body and the footer; a body that is
    only white space takes the header's last newline with it.
   */
  lemma ManifestShape(s: seq<Addon>)
    ensures var m := Merge(s);
            var body := RStrip(Body(m, |m.keys|));
            AddonsXml(s) == if body == [] then Header + ClosingTag else Header + body + Footer
  {
    var m := Merge(s);
    EnvelopeOfBody(Body(m, |m.keys|));
  }

  lemma EnvelopeOfBody(body: string)
    ensures Strip(Header + body) + Footer
            == if RStrip(body) == [] then Header + ClosingTag else Header + RStrip(body) + Footer
  {
    OpeningTagsEnds();
    EnvelopeAround(OpeningTags, body, ClosingTag);
  }

  lemma EnvelopeAround(tag: string, body: string, closing: string)
    requires tag != [] && !IsSpace(tag[0]) && !IsSpace(tag[|tag| - 1])
    ensures Strip(tag + "\n" + body) + ("\n" + closing)
            == if RStrip(body) == [] then tag + "\n" + closing else tag + "\n" + RStrip(body) + ("\n" + closing)
  {
    StripAfterTag(tag, body);
  }

  lemma ConcatEnds(a: string, b: string)
    ensures StartsWith(a + b, a) && EndsWith(a + b, b)
  {
    assert (a + b)[..|a|] == a;
    assert (a + b)[|a + b| - |b|..] == b;
  }

  /** The manifest always starts with the header and ends with the closing tag. */
  lemma Envelope(s: seq<Addon>)
    ensures StartsWith(AddonsXml(s), Header)
    ensures EndsWith(AddonsXml(s), Footer)
  {
    var m := Merge(s);
    EnvelopeEnds(Body(m, |m.keys|));
  }

  lemma EnvelopeEnds(body: string)
    ensures StartsWith(Strip(Header + body) + Footer, Header)
    ensures EndsWith(Strip(Header + body) + Footer, Footer)
  {
    EnvelopeOfBody(body);
    if RStrip(body) == [] {
      EnvelopeOfNothing();
    } else {
      EnvelopeOfText(RStrip(body));
    }
  }

  lemma EnvelopeOfNothing()
    ensures StartsWith(Header + ClosingTag, Header) && EndsWith(Header + ClosingTag, Footer)
  {
    assert OpeningTags + Footer == Header + ClosingTag;
    ConcatEnds(Header, ClosingTag);
    ConcatEnds(OpeningTags, Footer);
  }

  lemma EnvelopeOfText(b: string)
    ensures StartsWith(Header + b + Footer, Header) && EndsWith(Header + b + Footer, Footer)
  {
    assert Header + b + Footer == Header + (b + Footer);
    ConcatEnds(Header, b + Footer);
    ConcatEnds(Header + b, Footer);
  }

  /** With no addons the manifest is the header directly followed by the closing tag. */
  lemma EmptyManifest()
    ensures AddonsXml([]) == Header + ClosingTag
  {
    ManifestShape([]);
  }

  lemma {:induction false} ContainsPrefix(s: string, k: nat, p: string)
    requires k <= |s| && Contains(s[..k], p)
    ensures Contains(s, p)
    decreases k
  {
    if s[..k][..|p|] != p {
      assert s[..k][1..] == s[1..][..k - 1];
      ContainsPrefix(s[1..], k - 1, p);
    } else {
      assert s[..|p|] == s[..k][..|p|];
    }
  }

  lemma ConcatPrefix(x: string, y: string, k: nat)
    ensures k <= |x| ==> (x + y)[..k] == x[..k]
    ensures |x| < k <= |x| + |y| ==> (x + y)[..k][|x|] == y[0]
    ensures 0 < |x| < k <= |x| + |y| ==> (x + y)[..k][|x| - 1] == x[|x| - 1]
  {
  }

  /** A pattern without newlines cannot straddle the end of a text ending in a newline. */
  lemma {:induction false} ContainsAcrossNewline(x: string, y: string, p: string)
    requires x == [] || x[|x| - 1] == '\n'
    requires '\n' !in p
    requires !Contains(x, p) && !Contains(y, p)
    ensures !Contains(x + y, p)
    decreases |x|
  {
    if x == [] {
      assert x + y == y;
    } else {
      if |p| <= |x + y| && (x + y)[..|p|] == p {
        ConcatPrefix(x, y, |p|);
        assert false;
      }
      assert (x + y)[1..] == x[1..] + y;
      assert !Contains(x[1..], p);
      ContainsAcrossNewline(x[1..], y, p);
    }
  }

  lemma {:induction false} NewlineAddsNoMatch(r: string, p: string)
    requires p != [] && '\n' !in p && !Contains(r, p)
    ensures !Contains(r + "\n", p)
    decreases |r|
  {
    var t := r + "\n";
    if |p| <= |t| && t[..|p|] == p {
      ConcatPrefix(r, "\n", |p|);
      assert false;
    }
    if r != [] {
      assert t[1..] == r[1..] + "\n";
      if |p| > |r| {
        assert |r[1..]| < |p|;
      }
      assert !Contains(r[1..], p);
      NewlineAddsNoMatch(r[1..], p);
    }
  }

  /** No XML declaration survives the cleaning of a block's lines. */
  lemma {:induction false} CleanLinesHaveNoDeclaration(lines: seq<string>)
    ensures !Contains(CleanLines(lines), XmlDeclaration)
  {
    if lines != [] {
      var p := lines[..|lines| - 1];
      var line := lines[|lines| - 1];
      CleanLinesHaveNoDeclaration(p);
      var c := CleanLines(p);
      if !Contains(line, XmlDeclaration) {
        var r := RStrip(line);
        if Contains(r, XmlDeclaration) {
          ContainsPrefix(line, |r|, XmlDeclaration);
        }
        var t := r + "\n";
        NewlineAddsNoMatch(r, XmlDeclaration);
        assert c == [] || c[|c| - 1] == '\n' by { CleanLinesEnd(p); }
        ContainsAcrossNewline(c, t, XmlDeclaration);
      } else {
        assert CleanLines(lines) == c + "";
        assert c + "" == c;
      }
    }
  }

  lemma CleanLinesEnd(lines: seq<string>)
    ensures CleanLines(lines) == [] || CleanLines(lines)[|CleanLines(lines)| - 1] == '\n'
    decreases |lines|
  {
    if lines != [] {
      CleanLinesEnd(lines[..|lines| - 1]);
    }
  }

  // ---------------------------------------------------------------------------
  // The builder, as the repository manager runs it
  // ---------------------------------------------------------------------------

  /** The merge loop of `create_repo_addons_xml` (repo/manager.py:43-48). */
  method MergeAddonXmlFiles(addons: seq<Addon>) returns (files: Files)
    ensures FilesValid(files) && files == Merge(addons)
  {
    files := Empty();
    for i := 0 to |addons|
      invariant FilesValid(files) && files == Merge(addons[..i])
    {
      var a := addons[i];
      MergePrefix(addons, i);
      if a.id in files.items {
        files := files.Put(a.id, files.items[a.id].Put(Str(a.version), a.xmlLines));
      } else {
        files := files.Put(a.id, Empty<string, seq<string>>().Put(Str(a.version), a.xmlLines));
      }
    }
    assert addons[..|addons|] == addons;
  }

  /** The innermost loop: one addon's lines, cleaned. */
  method CleanAddonXml(lines: seq<string>) returns (block: string)
    ensures block == CleanLines(lines)
  {
    block := "";
    for l := 0 to |lines|
      invariant block == CleanLines(lines[..l])
    {
      var line := lines[l];
      assert lines[..l + 1][..l] == lines[..l];
      if !Contains(line, XmlDeclaration) {
        block := block + (RStrip(line) + "\n");
      }
    }
    assert lines[..|lines|] == lines;
  }

  /**
    `create_repo_addons_xml` up to the save: the merge loop, the emission loops over
    ids and versions, and the final strip.
   */
  method BuildAddonsXml(addons: seq<Addon>) returns (xml: string)
    ensures xml == AddonsXml(addons)
  {
    var files := MergeAddonXmlFiles(addons);
    var data := EmitAddons(files);
    xml := Strip(data) + Footer;
  }

  /** The emission loop over the ids of the merge map, appending to the header. */
  method EmitAddons(files: Files) returns (data: string)
    requires FilesValid(files)
    ensures data == Header + Body(files, |files.keys|)
  {
    data := Header;
    for j := 0 to |files.keys|
      invariant data == Header + Body(files, j)
    {
      var versions := files.items[files.keys[j]];
      var text := EmitVersionBlocks(versions);
      Associative(Header, Body(files, j), text);
      data := data + text;
    }
  }

  /** The loop over the rendered versions of one id: their blocks, in order. */
  method EmitVersionBlocks(versions: Dict<string, seq<string>>) returns (text: string)
    requires versions.Valid()
    ensures text == VersionBlocks(versions, |versions.keys|)
  {
    text := "";
    for k := 0 to |versions.keys|
      invariant text == VersionBlocks(versions, k)
    {
      var block := CleanAddonXml(versions.items[versions.keys[k]]);
      text := text + (RStrip(block) + "\n\n");
    }
  }

  /** The repository manager, as far as `create_repo_addons_xml` uses it. */
  class RepoManager {
    const addons: AddonManager

    /** A manager over `config.addons_dir` and `config.repo_dir`, before the fresh scan. */
    constructor (addonsDir: string, repoDir: string)
      ensures fresh(addons)
      ensures addons.addonsDir == addonsDir && addons.repoDir == repoDir
      ensures addons.Valid() && addons.latest == Empty()
    {
      addons := new AddonManager(addonsDir, repoDir);
    }

    /**
      `RepoManager(config)`: builds the add-on manager and runs `get_addons_not_in_repo`
      at once, so a missing add-ons directory makes the construction raise.
     */
    static method Open(addonsDir: string, repoDir: string, fs: FileSystem) returns (r: Result<RepoManager, ScanError>)
      ensures r.Err? <==> !fs.List(addonsDir, Fresh).isDir
      ensures r.Err? ==> r.error == NotADirectory(addonsDir)
      ensures r.Ok? ==> fresh(r.value) && fresh(r.value.addons)
      ensures r.Ok? ==> r.value.addons.addonsDir == addonsDir && r.value.addons.repoDir == repoDir
      ensures r.Ok? ==> r.value.addons.Valid() && r.value.addons.latest == Resolve(Loaded(fs.List(addonsDir, Fresh).found))
    {
      var m := new RepoManager(addonsDir, repoDir);
      var scan := m.addons.GetAddonsNotInRepo(fs);
      if scan.Err? {
        return Err(scan.error);
      }
      r := Ok(m);
    }

    /**
      `create_repo_addons_xml` up to the save: the text of `addons.xml` for the addons
      `get_all_addons` yields, or the error their scan raises.
     */
    method CreateRepoAddonsXml(fs: FileSystem) returns (r: Result<string, ScanError>)
      requires addons.Valid()
      modifies addons`latest
      ensures addons.Valid()
      ensures old(addons.latest.keys) == [] && !fs.List(addons.addonsDir, Fresh).isDir
              ==> r == Err(NotADirectory(addons.addonsDir))
      ensures old(addons.latest.keys) != [] || fs.List(addons.addonsDir, Fresh).isDir
              ==> r == if fs.List(addons.repoDir, InRepo).isDir
                       then Ok(AddonsXml(addons.latest.Values() + Loaded(fs.List(addons.repoDir, InRepo).found)))
                       else Err(NotADirectory(addons.repoDir))
      ensures old(addons.latest.keys) != [] ==> addons.latest == old(addons.latest)
      ensures old(addons.latest.keys) == [] && fs.List(addons.addonsDir, Fresh).isDir
              ==> addons.latest == Resolve(Loaded(fs.List(addons.addonsDir, Fresh).found))
      ensures old(addons.latest.keys) == [] && !fs.List(addons.addonsDir, Fresh).isDir
              ==> addons.latest == old(addons.latest)
    {
      var all := addons.GetAllAddons(fs);
      if all.Err? {
        return Err(all.error);
      }
      var xml := BuildAddonsXml(all.value);
      r := Ok(xml);
    }
  }
}
