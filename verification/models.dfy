/** The record types of the network: global ids, forms, concepts as graph
    nodes, varieties as map features and the file name of a saved network. */
module Models {
  import opened Wrappers
  import opened Strings
  import Grouping

  /* ----------------------------------------------------------------- gid */

  /** `WithGid.gid`: the source and the local id joined by `-`. */
  function Gid(source: string, id: string): (r: string)
    ensures |r| == |source| + 1 + |id|
    ensures r[..|source|] == source && r[|source|] == '-' && r[|source| + 1..] == id
  {
    source + "-" + id
  }

  /** With a dash-free source, the gid determines source and id. */
  lemma GidInjective(s1: string, i1: string, s2: string, i2: string)
    requires '-' !in s1 && '-' !in s2
    requires Gid(s1, i1) == Gid(s2, i2)
    ensures s1 == s2 && i1 == i2
  {
  }

  /* ---------------------------------------------------------------- form */

  datatype Form = Form(
    id: string, source: string, form: string, clicsForm: Option<string>,
    gloss: Option<string>, concepticonId: Option<string>, concepticonGloss: Option<string>,
    ontologicalCategory: Option<string>, semanticField: Option<string>)

  /** `Form.__attrs_post_init__`: a falsy gloss (None or empty) is replaced
      by the Concepticon gloss; every other field is kept. */
  function InitForm(f: Form): (r: Form)
    ensures Truthy(f.gloss) ==> r == f
    ensures !Truthy(f.gloss) ==> r.gloss == f.concepticonGloss
    ensures r.(gloss := f.gloss) == f
  {
    if Truthy(f.gloss) then f else f.(gloss := f.concepticonGloss)
  }

  /** Running the post-init hook again changes nothing, and the result has a
      truthy gloss exactly when one of the two glosses was truthy. */
  lemma InitFormIdempotent(f: Form)
    ensures InitForm(InitForm(f)) == InitForm(f)
    ensures Truthy(InitForm(f).gloss) <==> Truthy(f.gloss) || Truthy(f.concepticonGloss)
  {
  }

  /* ------------------------------------------------------------- concept */

  /** A concept with the forms, varieties and families attesting it. The
      Python lists default to empty, which is `NewConcept`. */
  datatype Concept = Concept(
    id: string, gloss: string, ontologicalCategory: string, semanticField: string,
    forms: seq<string>, varieties: seq<string>, families: seq<string>)

  function NewConcept(id: string, gloss: string, category: string, field: string): (c: Concept)
    ensures c.forms == [] && c.varieties == [] && c.families == []
    ensures c.id == id && c.gloss == gloss
  {
    Concept(id, gloss, category, field, [], [], [])
  }

  /** The node attributes written into the graph, in the source's order. */
  datatype NodeAttrs = NodeAttrs(
    id: string, gloss: string, semanticField: string, category: string,
    familyFrequency: nat, languageFrequency: nat, wordFrequency: nat,
    words: string, languages: string, families: string, concepticonId: string)

  /** `Concept.as_node_attrs`: frequencies are list lengths, the lists are
      `;`-joined, and the id is reported twice. */
  function AsNodeAttrs(c: Concept): (a: NodeAttrs)
    ensures a.familyFrequency == |c.families| && a.languageFrequency == |c.varieties|
    ensures a.wordFrequency == |c.forms|
    ensures a.id == c.id && a.concepticonId == c.id
  {
    NodeAttrs(c.id, c.gloss, c.semanticField, c.ontologicalCategory,
              |c.families|, |c.varieties|, |c.forms|,
              Join(c.forms, ";"), Join(c.varieties, ";"), Join(c.families, ";"), c.id)
  }

  /** A non-empty list of `;`-free forms can be read back from the `Words`
      attribute, and its length is the word frequency. */
  lemma NodeWordsRoundTrip(c: Concept)
    requires |c.forms| >= 1
    requires forall i :: 0 <= i < |c.forms| ==> ';' !in c.forms[i]
    ensures Split(AsNodeAttrs(c).words, ';') == c.forms
    ensures |Split(AsNodeAttrs(c).words, ';')| == AsNodeAttrs(c).wordFrequency
  {
    JoinThenSplit(c.forms, ';');
  }

  /* ------------------------------------------------------------- variety */

  datatype Variety = Variety(
    id: string, source: string, name: string, glottocode: string, family: string,
    macroarea: string, longitude: Option<real>, latitude: Option<real>)

  /** The properties of the GeoJSON feature. `language` repeats the name,
      `area` is the macro-area, and `variety` is always "std". */
  datatype Properties = Properties(
    name: string, language: string, family: string, area: string, variety: string,
    key: string, glottocode: string, source: string, lon: Option<real>, lat: Option<real>)

  /** The GeoJSON feature: its properties and an optional point geometry. */
  datatype Feature = Feature(properties: Properties, geometry: Option<(real, real)>)

  /** `Variety.as_geojson`: a point at (longitude, latitude) when both are
      known, and no geometry otherwise. The geometry always agrees with the
      `lon` and `lat` properties. */
  function AsGeoJson(v: Variety): (f: Feature)
    ensures f.properties.key == Gid(v.source, v.id)
    ensures f.geometry.Some? <==> f.properties.lon.Some? && f.properties.lat.Some?
    ensures f.geometry.Some? ==> f.geometry.value == (f.properties.lon.value, f.properties.lat.value)
  {
    var geometry := if v.latitude.None? || v.longitude.None? then None
                    else Some((v.longitude.value, v.latitude.value));
    Feature(
      Properties(v.name, v.name, v.family, v.macroarea, "std", Gid(v.source, v.id),
                 v.glottocode, v.source, v.longitude, v.latitude),
      geometry)
  }

  /** Each property carries the variety attribute it is named after; a
      missing coordinate stays missing. */
  lemma GeoJsonProperties(v: Variety)
    ensures var p := AsGeoJson(v).properties;
      && p.name == p.language == v.name
      && p.family == v.family && p.area == v.macroarea && p.variety == "std"
      && p.glottocode == v.glottocode && p.source == v.source
      && p.lon == v.longitude && p.lat == v.latitude
  {
  }

  /** The geometry is present exactly when both coordinates are, and it is
      (longitude, latitude) in that order. */
  lemma GeometryPresence(v: Variety)
    ensures AsGeoJson(v).geometry.Some? <==> v.longitude.Some? && v.latitude.Some?
    ensures AsGeoJson(v).geometry.Some? ==>
      AsGeoJson(v).geometry.value == (v.longitude.value, v.latitude.value)
  {
  }

  /* ------------------------------------------------------------- network */

  /** A POSIX `pathlib` path: its root (`""`, `"/"` or `"//"`) and its
      parts. */
  datatype PurePath = PurePath(root: string, parts: seq<string>)

  /** `pathlib` keeps exactly two leading slashes and reduces any other
      number of them to one. */
  function RootOf(s: string): string
  {
    if |s| >= 2 && s[0] == '/' && s[1] == '/' && (|s| == 2 || s[2] != '/') then "//"
    else if |s| >= 1 && s[0] == '/' then "/"
    else ""
  }

  /** A piece between slashes that the path keeps: neither empty nor `.`. */
  predicate KeptPart(p: string)
  {
    p != "" && p != "."
  }

  predicate ProperPart(p: string)
  {
    KeptPart(p) && '/' !in p
  }

  /** A path as `pathlib` holds it after parsing. */
  predicate Normal(p: PurePath)
  {
    && (p.root == "" || p.root == "/" || p.root == "//")
    && forall i :: 0 <= i < |p.parts| ==> ProperPart(p.parts[i])
  }

  /** `PurePosixPath(s)`: repeated slashes and `.` parts vanish. */
  function Parse(s: string): (r: PurePath)
    ensures Normal(r)
  {
    var parts := Grouping.Filter(Split(s, '/'), KeptPart);
    assert forall i :: 0 <= i < |parts| ==> parts[i] in Split(s, '/');
    PurePath(RootOf(s), parts)
  }

  /** `p / s`: an absolute `s` replaces the path, a relative one extends it. */
  function JoinPath(p: PurePath, s: string): (r: PurePath)
    requires Normal(p)
    ensures Normal(r)
  {
    var q := Parse(s);
    if q.root != "" then q else PurePath(p.root, p.parts + q.parts)
  }

  /** `str(p)`: the root and the parts joined by slashes, and `.` for the
      empty relative path. */
  function Str(p: PurePath): string
  {
    if p.root == "" && |p.parts| == 0 then "." else p.root + Join(p.parts, "/")
  }

  lemma JoinStartsWithPart(parts: seq<string>)
    requires |parts| >= 1 && |parts[0]| >= 1
    ensures |Join(parts, "/")| >= 1 && Join(parts, "/")[0] == parts[0][0]
  {
  }

  /** The paths without parts read back as themselves. */
  lemma ParseBare(root: string)
    requires root == "" || root == "/" || root == "//"
    ensures Parse(Str(PurePath(root, []))) == PurePath(root, [])
  {
    var s := Str(PurePath(root, []));
    var pieces := Split(s, '/');
    if root == "" {
      assert s == ".";
      SplitWithoutSeparator(".", '/');
      assert pieces == ["."];
    } else if root == "/" {
      assert s == "" + "/" + "";
      SplitAtSeparator("", "", '/');
      SplitWithoutSeparator("", '/');
      assert pieces == ["", ""];
    } else {
      assert s == "" + "/" + "/";
      SplitAtSeparator("", "/", '/');
      assert "/" == "" + "/" + "";
      SplitAtSeparator("", "", '/');
      SplitWithoutSeparator("", '/');
      assert pieces == ["", "", ""];
    }
    assert RootOf(s) == root;
    Grouping.FilterNone(pieces, KeptPart);
  }

  /** The root read back from a path with parts. */
  lemma RootOfRooted(root: string, j: string)
    requires root == "" || root == "/" || root == "//"
    requires |j| >= 1 && j[0] != '/'
    ensures RootOf(root + j) == root
  {
    var s := root + j;
    assert s[|root|] == j[0];
  }

  /** The pieces of a relative path with parts are its parts. */
  lemma SplitParts(parts: seq<string>)
    requires |parts| >= 1
    requires forall i :: 0 <= i < |parts| ==> ProperPart(parts[i])
    ensures Split(Join(parts, "/"), '/') == parts
    ensures Grouping.Filter(parts, KeptPart) == parts
  {
    JoinThenSplit(parts, '/');
    Grouping.FilterAll(parts, KeptPart);
  }

  /** Each slash of the root adds an empty piece in front. */
  lemma SplitRooted(root: string, j: string)
    requires root == "/" || root == "//"
    ensures Split(root + j, '/') == (if root == "/" then [""] else ["", ""]) + Split(j, '/')
  {
    assert "/" + j == "" + "/" + j;
    SplitAtSeparator("", j, '/');
    if root == "//" {
      assert root + j == "" + "/" + ("/" + j);
      SplitAtSeparator("", "/" + j, '/');
    }
  }

  /** The parts read back from a path with parts: the root's slashes only
      add empty pieces, which parsing drops. */
  lemma PartsOfRooted(root: string, parts: seq<string>)
    requires root == "" || root == "/" || root == "//"
    requires |parts| >= 1
    requires forall i :: 0 <= i < |parts| ==> ProperPart(parts[i])
    ensures Grouping.Filter(Split(root + Join(parts, "/"), '/'), KeptPart) == parts
  {
    var j := Join(parts, "/");
    var x := Split(j, '/');
    SplitParts(parts);
    if root == "" {
      assert root + j == j;
    } else {
      SplitRooted(root, j);
      if root == "//" {
        assert ["", ""] + x == [""] + ([""] + x);
        Grouping.FilterSkipFront("", [""] + x, KeptPart);
      }
      Grouping.FilterSkipFront("", x, KeptPart);
    }
  }

  /** Reading back a parsed path gives the same path: `str` and parsing
      are inverse on the paths `pathlib` holds. */
  lemma ParseStr(p: PurePath)
    requires Normal(p)
    ensures Parse(Str(p)) == p
  {
    if |p.parts| == 0 {
      ParseBare(p.root);
    } else {
      var j := Join(p.parts, "/");
      JoinStartsWithPart(p.parts);
      assert j[0] != '/' by {
        assert j[0] in p.parts[0];
      }
      RootOfRooted(p.root, j);
      PartsOfRooted(p.root, p.parts);
    }
  }

  datatype Network = Network(graphname: string, threshold: string, edgefilter: string, graphdir: string)

  /** `{graphname}-{threshold}-{edgefilter}.gml`. */
  function FileName(n: Network): (r: string)
    ensures |r| >= 4 && r[|r| - 4..] == ".gml"
  {
    n.graphname + "-" + n.threshold + "-" + n.edgefilter + ".gml"
  }

  /** `Network.fname`: the file name under the graph directory, which
      `pathlib` has parsed. */
  function Fname(n: Network): string
  {
    Str(JoinPath(Parse(n.graphdir), FileName(n)))
  }

  /** A slash-free file name parses as a single relative part. */
  lemma ParseFileName(n: Network)
    requires '/' !in n.graphname && '/' !in n.threshold && '/' !in n.edgefilter
    ensures Parse(FileName(n)) == PurePath("", [FileName(n)])
  {
    var f := FileName(n);
    assert '/' !in f;
    assert f[|f| - 1] == 'l';
    SplitWithoutSeparator(f, '/');
    Grouping.FilterAll([f], KeptPart);
  }

  /** With slash-free name parts, the graph file is the graph directory,
      as `pathlib` reads it, with the file name as its one further part. */
  lemma FnamePath(n: Network)
    requires '/' !in n.graphname && '/' !in n.threshold && '/' !in n.edgefilter
    ensures var d := Parse(n.graphdir);
      Parse(Fname(n)) == PurePath(d.root, d.parts + [FileName(n)])
  {
    ParseFileName(n);
    ParseStr(JoinPath(Parse(n.graphdir), FileName(n)));
  }

  lemma FileNameOfExample(d: string)
    ensures FileName(Network("g", "t", "e", d)) == "g-t-e.gml"
  {
    assert "g" + "-" + "t" == "g-t";
    assert "g-t" + "-" + "e" == "g-t-e";
    assert "g-t-e" + ".gml" == "g-t-e.gml";
  }

  /** `.` and the empty directory add nothing to the graph file's path. */
  lemma FnameInCurrentDir(graphdir: string)
    requires graphdir == "." || graphdir == ""
    ensures Fname(Network("g", "t", "e", graphdir)) == "g-t-e.gml"
  {
    var n := Network("g", "t", "e", graphdir);
    ParseFileName(n);
    SplitWithoutSeparator(graphdir, '/');
    Grouping.FilterNone([graphdir], KeptPart);
    var f := FileName(n);
    assert Parse(graphdir) == PurePath("", []);
    assert JoinPath(Parse(graphdir), f) == PurePath("", [f]);
    assert Str(PurePath("", [f])) == f;
    FileNameOfExample(graphdir);
  }

  lemma ParseTrailingSlash()
    ensures Parse("a/") == PurePath("", ["a"])
  {
    assert Split("a/", '/') == ["a", ""] by {
      assert "a/" == "a" + "/" + "";
      SplitAtSeparator("a", "", '/');
      SplitWithoutSeparator("", '/');
    }
    assert Grouping.Filter(["a", ""], KeptPart) == ["a"] by {
      assert ["a", ""][..1] == ["a"];
      Grouping.FilterAll(["a"], KeptPart);
    }
  }

  lemma StrOfTwo(a: string, b: string)
    ensures Str(PurePath("", [a, b])) == a + "/" + b
  {
    assert [a, b][1..] == [b];
    assert Join([a, b], "/") == a + "/" + b;
    assert "" + (a + "/" + b) == a + "/" + b;
  }

  /** A trailing slash adds nothing either. */
  lemma FnameTrailingSlash()
    ensures Fname(Network("g", "t", "e", "a/")) == "a/g-t-e.gml"
  {
    var n := Network("g", "t", "e", "a/");
    ParseFileName(n);
    ParseTrailingSlash();
    var f := FileName(n);
    assert JoinPath(Parse("a/"), f) == PurePath("", ["a", f]);
    StrOfTwo("a", f);
    FileNameOfExample("a/");
    assert "a" + "/" + "g-t-e.gml" == "a/g-t-e.gml";
  }

  /** With dash-free parts, the file name gives back graph name, threshold
      and edge filter. */
  lemma FileNameRoundTrip(n: Network)
    requires '-' !in n.graphname && '-' !in n.threshold && '-' !in n.edgefilter
    ensures Split(FileName(n), '-') == [n.graphname, n.threshold, n.edgefilter + ".gml"]
  {
    var e := n.edgefilter + ".gml";
    var parts := [n.graphname, n.threshold, e];
    assert '-' !in e;
    JoinThenSplit(parts, '-');
    assert parts[1..][1..] == [e];
    assert Join(parts[1..], "-") == n.threshold + "-" + e;
    assert Join(parts, "-") == n.graphname + "-" + (n.threshold + "-" + e);
    assert n.graphname + "-" + (n.threshold + "-" + e) == n.graphname + "-" + n.threshold + "-" + e;
    assert FileName(n) == n.graphname + "-" + n.threshold + "-" + e;
  }
}
