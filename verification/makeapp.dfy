/** `parse_cluster_method` of the app builder: reads a cluster-method spec
    written `METHOD` or `METHOD[arg;arg;...]`. */
module MakeApp {
  import opened Wrappers
  import opened Strings

  /** Python `[arg.strip() for arg in xs]`. */
  function StripEach(xs: seq<string>): (r: seq<string>)
    ensures |r| == |xs|
    ensures forall i :: 0 <= i < |xs| ==> r[i] == Strip(xs[i])
  {
    if |xs| == 0 then [] else [Strip(xs[0])] + StripEach(xs[1..])
  }

  /** The spec text for a method and its arguments. */
  function Render(algo: string, args: seq<string>): string
  {
    algo + "[" + (Join(args, ";") + "]")
  }

  /** Splits `s` at its single `[`; more than one `[` cannot unpack into two
      names (ValueError), and the bracket text must end with `]`
      (AssertionError). The method name and every argument are stripped. */
  function ParseClusterMethod(s: string): (r: Result<(string, seq<string>)>)
    ensures r.Success? ==> Trimmed(r.value.0)
    ensures r.Success? ==> forall i :: 0 <= i < |r.value.1| ==> Trimmed(r.value.1[i]) && ';' !in r.value.1[i]
    ensures '[' !in s ==> r == Success((Strip(s), []))
  {
    if '[' !in s then Success((Strip(s), []))
    else
      var parts := Split(s, '[');
      if |parts| != 2 then Failure(ValueError("too many values to unpack (expected 2)"))
      else
        var args := parts[1];
        if |args| == 0 || args[|args| - 1] != ']' then Failure(AssertionError)
        else
          var pieces := Split(args[..|args| - 1], ';');
          forall i | 0 <= i < |pieces| ensures ';' !in Strip(pieces[i]) {
            StripExcludes(pieces[i], ';');
          }
          Success((Strip(parts[0]), StripEach(pieces)))
  }

  /** The call fails exactly when there is a `[` and either a second `[` or
      no closing `]` at the very end, with the exception Python raises. */
  lemma ParseFailure(s: string)
    ensures ParseClusterMethod(s).Failure? <==> '[' in s && (Count(s, '[') > 1 || s[|s| - 1] != ']')
    ensures '[' in s && Count(s, '[') > 1 ==>
      ParseClusterMethod(s) == Failure(ValueError("too many values to unpack (expected 2)"))
    ensures '[' in s && Count(s, '[') == 1 && s[|s| - 1] != ']' ==> ParseClusterMethod(s) == Failure(AssertionError)
  {
    if '[' in s {
      CountMember(s, '[');
      var parts := Split(s, '[');
      if |parts| == 2 {
        SplitThenJoin(s, '[');
        assert s == parts[0] + "[" + parts[1];
      }
    }
  }

  /** Rendering a method with separator-free arguments and parsing the text
      gives back the stripped method name and the stripped arguments. */
  lemma RoundTrip(algo: string, args: seq<string>)
    requires '[' !in algo
    requires |args| >= 1
    requires forall i :: 0 <= i < |args| ==> ';' !in args[i] && '[' !in args[i]
    ensures ParseClusterMethod(Render(algo, args)) == Success((Strip(algo), StripEach(args)))
  {
    var joined := Join(args, ";");
    RenderSplits(algo, args);
    ParseBracketed(Render(algo, args), algo, joined + "]");
    assert (joined + "]")[..|joined|] == joined;
    JoinThenSplit(args, ';');
  }

  lemma RenderSplits(algo: string, args: seq<string>)
    requires '[' !in algo
    requires forall i :: 0 <= i < |args| ==> '[' !in args[i]
    ensures Split(Render(algo, args), '[') == [algo, Join(args, ";") + "]"]
  {
    var rest := Join(args, ";") + "]";
    JoinExcludes(args, ';', '[');
    assert '[' !in rest;
    SplitOnce(algo, rest, '[');
  }

  /** The success path, given the two halves around the `[`. */
  lemma ParseBracketed(s: string, before: string, after: string)
    requires Split(s, '[') == [before, after]
    requires |after| > 0 && after[|after| - 1] == ']'
    ensures ParseClusterMethod(s) == Success((Strip(before), StripEach(Split(after[..|after| - 1], ';'))))
  {
    assert '[' in s by {
      SplitThenJoin(s, '[');
      assert s == before + "[" + after;
      assert s[|before|] == '[';
    }
    var parts := Split(s, '[');
    assert |parts| == 2 && parts[0] == before && parts[1] == after;
  }

  /** Empty brackets, as in `x[]`, give one empty argument. */
  lemma EmptyBrackets(algo: string)
    requires '[' !in algo && Trimmed(algo)
    ensures ParseClusterMethod(algo + "[]") == Success((algo, [""]))
  {
    var none: seq<string> := [""];
    assert Join(none, ";") == "";
    assert Render(algo, none) == algo + "[]";
    RoundTrip(algo, none);
    StripTrimmed(algo);
    StripTrimmed("");
    assert StripEach(none) == none;
  }
}
