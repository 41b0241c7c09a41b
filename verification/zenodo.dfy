/** Metadata records of the dataset archive (`OAIRecord`): the DOI, the
    repository, the dataset id and the release tag derived from a record's
    identifier, title and relation URLs.

    The two regular expressions the source uses are modelled by hand. Both are
    deterministic: every variable-width part is either bounded by a character
    it cannot contain or is the final greedy run, so a match at a position, if
    any, is unique, and `re.search` returns the one at the leftmost position. */
module Zenodo {
  import opened Wrappers
  import opened Strings

  datatype OAIRecord = OAIRecord(id: string, title: string, relations: seq<string>)

  const DoiPrefix: string := "10.5281/zenodo."

  function Last<T>(xs: seq<T>): T
    requires |xs| > 0
  {
    xs[|xs| - 1]
  }

  /** `'10.5281/zenodo.' + id.split(':')[-1]`. */
  function Doi(id: string): (r: string)
    ensures |r| > |DoiPrefix| ==> ':' !in r[|DoiPrefix|..]
    ensures |r| >= |DoiPrefix| && r[..|DoiPrefix|] == DoiPrefix
  {
    var suffix := Last(Split(id, ':'));
    assert suffix in Split(id, ':');
    DoiPrefix + suffix
  }

  /** The DOI takes the record number after the last colon of the identifier. */
  lemma DoiOf(prefix: string, number: string)
    requires ':' !in number
    ensures Doi(prefix + ":" + number) == DoiPrefix + number
  {
    assert prefix + ":" + number == prefix + [':'] + number;
    SplitLastPiece(prefix, number, ':');
  }

  /** An identifier without a colon is used whole. */
  lemma DoiPlain(id: string)
    requires ':' !in id
    ensures Doi(id) == DoiPrefix + id
  {
    SplitWithoutSeparator(id, ':');
  }

  /** The Markdown DOI badge, linking to the DOI resolver. */
  function DoiMd(doi: string): (r: string)
  {
    "[![DOI](https://zenodo.org/badge/DOI/" + doi + ".svg)](https://doi.org/" + doi + ")"
  }

  /** The badge embeds the DOI twice: in the image URL and in the link. */
  lemma DoiMdEmbeds(doi: string)
    ensures OccursAt(DoiMd(doi), doi, 37)
    ensures OccursAt(DoiMd(doi), doi, 37 + |doi| + 23)
    ensures ContainsSub(DoiMd(doi), doi)
  {
    var r := DoiMd(doi);
    var a := "[![DOI](https://zenodo.org/badge/DOI/";
    var b := ".svg)](https://doi.org/";
    assert |a| == 37 && |b| == 23;
    assert r == a + doi + b + doi + ")";
    assert r[37..37 + |doi|] == doi;
    assert r[37 + |doi| + 23..37 + |doi| + 23 + |doi|] == doi;
    assert OccursAt(r, doi, 37);
  }

  predicate IsLexirumah(title: string)
  {
    ContainsSub(Lower(title), "lexirumah")
  }

  predicate IsBangime(title: string)
  {
    ContainsSub(title, "Bangime")
  }

  predicate Special(title: string)
  {
    IsLexirumah(title) || IsBangime(title)
  }

  /** The repository: fixed for the two special datasets, otherwise the title
      up to its first colon. */
  function Repos(title: string): (r: string)
    ensures !Special(title) ==> ':' !in r
  {
    if IsLexirumah(title) then "lessersunda/lexirumah-data"
    else if IsBangime(title) then "lingpy/language-island-paper"
    else
      var parts := Split(title, ':');
      assert parts[0] in parts;
      parts[0]
  }

  /** A title of the form `owner/name: description` names its repository. */
  lemma ReposOf(repos: string, description: string)
    requires ':' !in repos
    requires !Special(repos + ":" + description)
    ensures Repos(repos + ":" + description) == repos
  {
    assert repos + ":" + description == repos + [':'] + description;
    SplitAtSeparator(repos, description, ':');
  }

  /** The dataset id: fixed for the special datasets, otherwise the second
      `/`-separated part of the repository (an `IndexError` without a slash). */
  function DatasetId(title: string): (r: Result<string>)
    ensures r.Success? && !Special(title) ==> '/' !in r.value
  {
    if IsLexirumah(title) then Success("lexirumah")
    else if IsBangime(title) then Success("hantganbangime")
    else
      var parts := Split(Repos(title), '/');
      if |parts| < 2 then Failure(IndexError)
      else
        assert parts[1] in parts;
        Success(parts[1])
  }

  /** Outside the special datasets, the id fails exactly when the repository
      has no slash. */
  lemma DatasetIdFails(title: string)
    requires !Special(title)
    ensures DatasetId(title).Failure? <==> '/' !in Repos(title)
    ensures DatasetId(title).Failure? ==> DatasetId(title).error == IndexError
  {
    var parts := Split(Repos(title), '/');
    if '/' in Repos(title) {
      CountMember(Repos(title), '/');
    } else {
      SplitWithoutSeparator(Repos(title), '/');
    }
  }

  /** `owner/name: description` yields `name`. */
  lemma DatasetIdOf(owner: string, name: string, description: string)
    requires ':' !in owner && ':' !in name && '/' !in owner && '/' !in name
    requires !Special(owner + "/" + name + ":" + description)
    ensures DatasetId(owner + "/" + name + ":" + description) == Success(name)
  {
    var repos := owner + "/" + name;
    assert ':' !in repos by {
      assert forall k | 0 <= k < |repos| :: repos[k] == (if k < |owner| then owner[k] else if k == |owner| then '/' else name[k - |owner| - 1]);
    }
    assert owner + "/" + name + ":" + description == repos + ":" + description;
    ReposOf(repos, description);
    assert repos == owner + ['/'] + name;
    SplitOnce(owner, name, '/');
  }

  /* ----------------------------------------------------- regular expressions */

  /** The leftmost position in `i..n` where `f` matches, as `re.search` scans. */
  function FirstSome<T>(f: nat -> Option<T>, n: nat, i: nat): (r: Option<T>)
    requires i <= n
    decreases n - i
  {
    if f(i).Some? then f(i)
    else if i == n then None
    else FirstSome(f, n, i + 1)
  }

  /** The scan finds a match exactly when there is one, and returns the match
      at the leftmost matching position. */
  lemma {:induction false} FirstSomeMeans<T>(f: nat -> Option<T>, n: nat, i: nat)
    requires i <= n
    ensures FirstSome(f, n, i).None? <==> forall k | i <= k <= n :: f(k).None?
    ensures FirstSome(f, n, i).Some? ==>
      exists k | i <= k <= n :: FirstSome(f, n, i) == f(k) && forall m | i <= m < k :: f(m).None?
    decreases n - i
  {
    if f(i).None? && i < n {
      FirstSomeMeans(f, n, i + 1);
      if FirstSome(f, n, i).Some? {
        var k :| i + 1 <= k <= n && FirstSome(f, n, i) == f(k) && forall m | i + 1 <= m < k :: f(m).None?;
        assert forall m | i <= m < k :: f(m).None?;
      }
    }
  }

  /** Positions where nothing matches can be skipped. */
  lemma {:induction false} FirstSomeSkip<T>(f: nat -> Option<T>, n: nat, i: nat, j: nat)
    requires i <= j <= n
    requires forall k | i <= k < j :: f(k).None?
    ensures FirstSome(f, n, i) == FirstSome(f, n, j)
    decreases j - i
  {
    if i < j {
      FirstSomeSkip(f, n, i + 1, j);
    }
  }

  /** Length of the longest run of characters satisfying `p` from `i`. */
  function RunLength(s: string, i: nat, p: char -> bool): (n: nat)
    requires i <= |s|
    ensures i + n <= |s|
    ensures forall k | i <= k < i + n :: p(s[k])
    ensures i + n == |s| || !p(s[i + n])
    decreases |s| - i
  {
    if i == |s| || !p(s[i]) then 0 else 1 + RunLength(s, i + 1, p)
  }

  /** A run of `p`-characters ended by a non-`p` character (or the end) is the
      longest run. */
  lemma {:induction false} RunStops(s: string, i: nat, n: nat, p: char -> bool)
    requires i + n <= |s|
    requires forall k | i <= k < i + n :: p(s[k])
    requires i + n == |s| || !p(s[i + n])
    ensures RunLength(s, i, p) == n
    decreases n
  {
    if n > 0 {
      RunStops(s, i + 1, n - 1, p);
    }
  }

  predicate NotSlash(c: char) { c != '/' }

  /** `[a-zA-Z0-9.]` */
  predicate IsTagChar(c: char) { IsAsciiLetter(c) || IsDigit(c) || c == '.' }

  /** `[0-9.]` */
  predicate IsVersionChar(c: char) { IsDigit(c) || c == '.' }

  /** `https://github.com/` at `i`; the dot is unescaped in the source's
      pattern, so it stands for any character except a newline. */
  predicate Header(s: string, i: nat)
  {
    OccursAt(s, "https://github", i) && i + 19 <= |s| && s[i + 14] != '\n' && OccursAt(s, "com/", i + 15)
  }

  /** `(?P<tag>[a-zA-Z0-9.]+)` at `t`: the greedy run. */
  function TagRun(s: string, t: nat): (r: Option<string>)
    requires t <= |s|
  {
    var n := RunLength(s, t, IsTagChar);
    if n == 0 then None else Some(s[t..t + n])
  }

  /** `[^/]+/tree/` then the tag, from `j`. */
  function AfterName(s: string, j: nat): (r: Option<string>)
    requires j <= |s|
  {
    var n := RunLength(s, j, NotSlash);
    if n == 0 || !OccursAt(s, "/tree/", j + n) then None else TagRun(s, j + n + 6)
  }

  /** `[^/]+/` then the rest, from `o`. A run of non-slashes can only be
      followed by a slash, so no backtracking is possible. */
  function AfterOwner(s: string, o: nat): (r: Option<string>)
    requires o <= |s|
  {
    var n := RunLength(s, o, NotSlash);
    if n == 0 || o + n == |s| then None else AfterName(s, o + n + 1)
  }

  /** The `tag` group of `TAG_PATTERN` matched at position `i`. */
  function TagAt(s: string, i: nat): (r: Option<string>)
  {
    if !Header(s, i) then None else AfterOwner(s, i + 19)
  }

  /** A match is a non-empty `[a-zA-Z0-9.]` run. */
  lemma TagAtChars(s: string, i: nat)
    ensures TagAt(s, i).Some? ==> |TagAt(s, i).value| > 0
    ensures TagAt(s, i).Some? ==> forall k | 0 <= k < |TagAt(s, i).value| :: IsTagChar(TagAt(s, i).value[k])
  {
    if Header(s, i) {
      AfterOwnerChars(s, i + 19);
    }
  }

  lemma AfterOwnerChars(s: string, o: nat)
    requires o <= |s|
    ensures AfterOwner(s, o).Some? ==> |AfterOwner(s, o).value| > 0
    ensures AfterOwner(s, o).Some? ==> forall k | 0 <= k < |AfterOwner(s, o).value| :: IsTagChar(AfterOwner(s, o).value[k])
  {
    var n := RunLength(s, o, NotSlash);
    if n > 0 && o + n < |s| {
      AfterNameChars(s, o + n + 1);
    }
  }

  lemma AfterNameChars(s: string, j: nat)
    requires j <= |s|
    ensures AfterName(s, j).Some? ==> |AfterName(s, j).value| > 0
    ensures AfterName(s, j).Some? ==> forall k | 0 <= k < |AfterName(s, j).value| :: IsTagChar(AfterName(s, j).value[k])
  {
    var n := RunLength(s, j, NotSlash);
    if n > 0 && OccursAt(s, "/tree/", j + n) {
      TagRunChars(s, j + n + 6);
    }
  }

  lemma TagRunChars(s: string, t: nat)
    requires t <= |s|
    ensures TagRun(s, t).Some? ==> |TagRun(s, t).value| > 0
    ensures TagRun(s, t).Some? ==> forall k | 0 <= k < |TagRun(s, t).value| :: IsTagChar(TagRun(s, t).value[k])
  {
    var n := RunLength(s, t, IsTagChar);
    if n > 0 {
      var r := s[t..t + n];
      assert forall k | 0 <= k < n :: r[k] == s[t + k];
    }
  }

  /** `TAG_PATTERN.search(s)`. */
  function SearchTag(s: string): (r: Option<string>)
  {
    FirstSome(k => TagAt(s, k), |s|, 0)
  }

  /** The search succeeds exactly when a match exists, with the tag of the
      leftmost one. */
  lemma SearchTagMeans(s: string)
    ensures SearchTag(s).None? <==> forall k | 0 <= k <= |s| :: TagAt(s, k).None?
    ensures SearchTag(s).Some? ==>
      exists k | 0 <= k <= |s| :: SearchTag(s) == TagAt(s, k) && forall m | 0 <= m < k :: TagAt(s, m).None?
  {
    var f := k => TagAt(s, k);
    FirstSomeMeans(f, |s|, 0);
    assert forall k :: f(k) == TagAt(s, k);
  }

  /** Every tag the search returns is a non-empty `[a-zA-Z0-9.]` run. */
  lemma SearchTagChars(s: string)
    ensures SearchTag(s).Some? ==> |SearchTag(s).value| > 0
    ensures SearchTag(s).Some? ==> forall k | 0 <= k < |SearchTag(s).value| :: IsTagChar(SearchTag(s).value[k])
  {
    SearchTagMeans(s);
    if SearchTag(s).Some? {
      var k :| 0 <= k <= |s| && SearchTag(s) == TagAt(s, k);
      TagAtChars(s, k);
    }
  }

  /** The `tag` group of `v[0-9.]+` matched at position `i`. */
  function VersionAt(s: string, i: nat): (r: Option<string>)
    ensures r.Some? ==> |r.value| >= 2 && r.value[0] == 'v'
    ensures r.Some? ==> forall k | 1 <= k < |r.value| :: IsVersionChar(r.value[k])
  {
    if i < |s| && s[i] == 'v' && RunLength(s, i + 1, IsVersionChar) > 0
    then Some(s[i..i + 1 + RunLength(s, i + 1, IsVersionChar)])
    else None
  }

  /** `re.search('(?P<tag>v[0-9.]+)', s)`. */
  function SearchVersion(s: string): (r: Option<string>)
  {
    FirstSome(k => VersionAt(s, k), |s|, 0)
  }

  /** The first relation URL that `TAG_PATTERN` matches, and its tag. */
  function FirstTag(relations: seq<string>): (r: Option<string>)
  {
    if |relations| == 0 then None
    else if SearchTag(relations[0]).Some? then SearchTag(relations[0])
    else FirstTag(relations[1..])
  }

  /** The release tag. For the lexirumah dataset it is the first `v<digits>`
      run in the title; a title without one fails on `.group` of `None`. For
      every other record it is taken from the first relation URL pointing at a
      GitHub tree; with none, `ValueError(id)`. */
  function Tag(rec: OAIRecord): (r: Result<string>)
  {
    if IsLexirumah(rec.title) then
      var m := SearchVersion(rec.title);
      if m.None? then Failure(AttributeError) else Success(m.value)
    else
      var m := FirstTag(rec.relations);
      if m.None? then Failure(ValueError(rec.id)) else Success(m.value)
  }

  /** The tag is taken from the first relation with a match, and is absent
      exactly when no relation matches. */
  lemma {:induction false} FirstTagIsFirst(relations: seq<string>)
    ensures FirstTag(relations).None? <==> forall j | 0 <= j < |relations| :: SearchTag(relations[j]).None?
    ensures FirstTag(relations).Some? ==>
      exists j | 0 <= j < |relations| :: FirstTag(relations) == SearchTag(relations[j])
        && forall m | 0 <= m < j :: SearchTag(relations[m]).None?
  {
    if |relations| > 0 && SearchTag(relations[0]).None? {
      var rest := relations[1..];
      FirstTagIsFirst(rest);
      assert forall j | 1 <= j < |relations| :: relations[j] == rest[j - 1];
      if FirstTag(relations).Some? {
        var j :| 0 <= j < |rest| && FirstTag(rest) == SearchTag(rest[j])
          && forall m | 0 <= m < j :: SearchTag(rest[m]).None?;
        assert FirstTag(relations) == SearchTag(relations[j + 1]);
        assert forall m | 0 <= m < j + 1 :: SearchTag(relations[m]).None?;
      }
    }
  }

  /** A successful tag is a non-empty `[a-zA-Z0-9.]` run, or `v` and a
      `[0-9.]` run for lexirumah; failures are the two the source raises. */
  lemma TagShape(rec: OAIRecord)
    ensures Tag(rec).Success? && !IsLexirumah(rec.title) ==>
      |Tag(rec).value| > 0 && forall k | 0 <= k < |Tag(rec).value| :: IsTagChar(Tag(rec).value[k])
    ensures Tag(rec).Success? && IsLexirumah(rec.title) ==>
      |Tag(rec).value| >= 2 && Tag(rec).value[0] == 'v'
    ensures !IsLexirumah(rec.title) ==>
      (Tag(rec).Failure? <==> forall j | 0 <= j < |rec.relations| :: SearchTag(rec.relations[j]).None?)
    ensures Tag(rec).Failure? ==>
      Tag(rec).error == (if IsLexirumah(rec.title) then AttributeError else ValueError(rec.id))
  {
    if IsLexirumah(rec.title) {
      FirstSomeMeans(k => VersionAt(rec.title, k), |rec.title|, 0);
      if SearchVersion(rec.title).Some? {
        var k :| 0 <= k <= |rec.title| && SearchVersion(rec.title) == VersionAt(rec.title, k);
      }
    } else {
      FirstTagIsFirst(rec.relations);
      if FirstTag(rec.relations).Some? {
        var j :| 0 <= j < |rec.relations| && FirstTag(rec.relations) == SearchTag(rec.relations[j]);
        SearchTagChars(rec.relations[j]);
      }
    }
  }

  /** The URL of a GitHub tree at a tag. */
  function TreeUrl(owner: string, name: string, tag: string): string
  {
    "https://github.com/" + (owner + "/" + (name + "/tree/" + tag))
  }

  /** The tag run at the end of the text. */
  lemma TagRunAt(s: string, t: nat, tag: string)
    requires t + |tag| == |s| && |tag| > 0
    requires forall k | 0 <= k < |tag| :: s[t + k] == tag[k] && IsTagChar(tag[k])
    ensures TagRun(s, t) == Some(tag)
  {
    assert forall k | t <= k < t + |tag| :: s[k] == tag[k - t];
    RunStops(s, t, |tag|, IsTagChar);
    assert s[t..t + |tag|] == tag;
  }

  /** `name/tree/` followed by a tag. */
  lemma AfterNameAt(s: string, j: nat, name: string, tag: string)
    requires j + |name| + 6 <= |s| && |name| > 0
    requires '/' !in name
    requires forall k | 0 <= k < |name| :: s[j + k] == name[k]
    requires OccursAt(s, "/tree/", j + |name|)
    requires TagRun(s, j + |name| + 6) == Some(tag)
    ensures AfterName(s, j) == Some(tag)
  {
    assert s[j + |name|..j + |name| + 6][0] == s[j + |name|];
    assert forall k | j <= k < j + |name| :: s[k] == name[k - j];
    RunStops(s, j, |name|, NotSlash);
  }

  /** `owner/` followed by the rest of the pattern. */
  lemma AfterOwnerAt(s: string, o: nat, owner: string, tag: string)
    requires o + |owner| < |s| && |owner| > 0
    requires '/' !in owner
    requires forall k | 0 <= k < |owner| :: s[o + k] == owner[k]
    requires s[o + |owner|] == '/'
    requires AfterName(s, o + |owner| + 1) == Some(tag)
    ensures AfterOwner(s, o) == Some(tag)
  {
    assert forall k | o <= k < o + |owner| :: s[k] == owner[k - o];
    RunStops(s, o, |owner|, NotSlash);
  }

  lemma HeaderAt(s: string, i: nat)
    requires i + 19 <= |s|
    requires s[i..i + 19] == "https://github.com/"
    ensures Header(s, i)
  {
    assert s[i..i + 14] == s[i..i + 19][..14];
    assert s[i + 15..i + 19] == s[i..i + 19][15..];
  }

  /** Where the parts of a tree URL sit after a prefix. */
  lemma TreeUrlLayout(prefix: string, owner: string, name: string, tag: string, o: nat, j: nat, t: nat)
    requires o == |prefix| + 19 && j == o + |owner| + 1 && t == j + |name| + 6
    ensures var s := prefix + TreeUrl(owner, name, tag);
      && |s| == t + |tag|
      && Header(s, |prefix|)
      && (forall k | 0 <= k < |owner| :: s[o + k] == owner[k])
      && s[o + |owner|] == '/'
      && (forall k | 0 <= k < |name| :: s[j + k] == name[k])
      && OccursAt(s, "/tree/", j + |name|)
      && (forall k | 0 <= k < |tag| :: s[t + k] == tag[k])
  {
    var rest := name + "/tree/" + tag;
    var u := "https://github.com/" + (owner + "/" + rest);
    var s := prefix + u;
    TreeUrlHeader(prefix, u, owner + "/" + rest);
    assert s[o..] == owner + "/" + rest;
    OwnerLayout(s, o, owner, rest);
    NameLayout(s, j, name, tag);
  }

  lemma OwnerLayout(s: string, o: nat, owner: string, rest: string)
    requires o <= |s| && s[o..] == owner + "/" + rest
    ensures |s| == o + |owner| + 1 + |rest|
    ensures forall k | 0 <= k < |owner| :: s[o + k] == owner[k]
    ensures s[o + |owner|] == '/'
    ensures s[o + |owner| + 1..] == rest
  {
    assert forall k | 0 <= k < |owner| :: s[o + k] == s[o..][k];
    assert s[o + |owner|] == s[o..][|owner|];
  }

  lemma NameLayout(s: string, j: nat, name: string, tag: string)
    requires j <= |s| && s[j..] == name + "/tree/" + tag
    ensures |s| == j + |name| + 6 + |tag|
    ensures forall k | 0 <= k < |name| :: s[j + k] == name[k]
    ensures OccursAt(s, "/tree/", j + |name|)
    ensures forall k | 0 <= k < |tag| :: s[j + |name| + 6 + k] == tag[k]
  {
    var r := s[j..];
    assert forall k | 0 <= k < |name| :: s[j + k] == r[k];
    assert s[j + |name|..j + |name| + 6] == r[|name|..|name| + 6];
    assert forall k | 0 <= k < |tag| :: tag[k] == r[|name| + 6 + k] == s[j + |name| + 6 + k];
  }

  lemma TreeUrlHeader(prefix: string, u: string, rest: string)
    requires u == "https://github.com/" + rest
    ensures Header(prefix + u, |prefix|)
  {
    var s := prefix + u;
    assert s[|prefix|..|prefix| + 19] == u[..19] == "https://github.com/";
    HeaderAt(s, |prefix|);
  }

  /** The pattern matches at `i` when a tree URL's parts sit there. */
  lemma TagAtLayout(s: string, i: nat, owner: string, name: string, tag: string, o: nat, j: nat, t: nat)
    requires |owner| > 0 && |name| > 0 && |tag| > 0
    requires '/' !in owner && '/' !in name
    requires forall k | 0 <= k < |tag| :: IsTagChar(tag[k])
    requires o == i + 19 && j == o + |owner| + 1 && t == j + |name| + 6
    requires |s| == t + |tag|
    requires Header(s, i)
    requires forall k | 0 <= k < |owner| :: s[o + k] == owner[k]
    requires s[o + |owner|] == '/'
    requires forall k | 0 <= k < |name| :: s[j + k] == name[k]
    requires OccursAt(s, "/tree/", j + |name|)
    requires forall k | 0 <= k < |tag| :: s[t + k] == tag[k]
    ensures TagAt(s, i) == Some(tag)
  {
    TagRunAt(s, t, tag);
    AfterNameAt(s, j, name, tag);
    AfterOwnerAt(s, o, owner, tag);
  }

  /** A tree URL after a prefix matches where it starts, with its tag. */
  lemma TagAtTreeUrl(prefix: string, owner: string, name: string, tag: string)
    requires |owner| > 0 && |name| > 0 && |tag| > 0
    requires '/' !in owner && '/' !in name
    requires forall k | 0 <= k < |tag| :: IsTagChar(tag[k])
    ensures TagAt(prefix + TreeUrl(owner, name, tag), |prefix|) == Some(tag)
  {
    var o := |prefix| + 19;
    var j := o + |owner| + 1;
    var t := j + |name| + 6;
    TreeUrlLayout(prefix, owner, name, tag, o, j, t);
    TagAtLayout(prefix + TreeUrl(owner, name, tag), |prefix|, owner, name, tag, o, j, t);
  }

  /** No match can start on a character other than `h`. */
  lemma NoTagAt(s: string, i: nat)
    requires i < |s| && s[i] != 'h'
    ensures TagAt(s, i).None?
  {
    if i + 14 <= |s| {
      assert s[i..i + 14][0] == s[i];
    }
  }

  /** A relation `<prefix><tree URL>`, with no `h` in the prefix (as in
      `url:https://github.com/...`), gives the tag of the tree it points at. */
  lemma TagOfRelation(rec: OAIRecord, prefix: string, owner: string, name: string, tag: string)
    requires !IsLexirumah(rec.title)
    requires |rec.relations| > 0
    requires rec.relations[0] == prefix + TreeUrl(owner, name, tag)
    requires 'h' !in prefix
    requires |owner| > 0 && |name| > 0 && |tag| > 0
    requires '/' !in owner && '/' !in name
    requires forall k | 0 <= k < |tag| :: IsTagChar(tag[k])
    ensures Tag(rec) == Success(tag)
  {
    var s := rec.relations[0];
    var f := (k: nat) => TagAt(s, k);
    TagAtTreeUrl(prefix, owner, name, tag);
    forall k | 0 <= k < |prefix|
      ensures f(k).None?
    {
      assert s[k] == prefix[k];
      NoTagAt(s, k);
    }
    FirstSomeSkip(f, |s|, 0, |prefix|);
    assert f(|prefix|) == Some(tag);
  }
}
