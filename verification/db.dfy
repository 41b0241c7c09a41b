/** The CLICS form of a word and the extra `clics_form` column the database
    adds to each row of the form table. */
module Db {
  import opened Wrappers
  import opened Strings
  import Sorting

  /** ASCII letters, digits and `@` (transliteration turns a schwa into `@`). */
  predicate Allowed(c: char)
  {
    IsAsciiLetter(c) || IsDigit(c) || c == '@'
  }

  /** The characters a CLICS form may contain. */
  predicate IsClicsChar(c: char)
  {
    IsAsciiLower(c) || IsDigit(c) || c == '@'
  }

  predicate AllAllowed(s: string)
  {
    forall i :: 0 <= i < |s| ==> Allowed(s[i])
  }

  /** The allowed characters of `s`, in order. */
  function KeepAllowed(s: string): (r: string)
    ensures |r| <= |s|
    ensures AllAllowed(r)
  {
    if |s| == 0 then ""
    else (if Allowed(s[0]) then [s[0]] else "") + KeepAllowed(s[1..])
  }

  /** `clics_form`: transliterate (the `unidecode` library, a parameter here),
      drop every character outside ASCII letters, digits and `@`, lower-case. */
  function ClicsForm(translit: string -> string, word: string): (r: string)
    ensures |r| <= |translit(word)|
    ensures forall i :: 0 <= i < |r| ==> IsClicsChar(r[i])
  {
    Lower(KeepAllowed(translit(word)))
  }

  /** Text made only of allowed characters keeps every character. */
  lemma {:induction false} KeepAllowedAll(s: string)
    requires AllAllowed(s)
    ensures KeepAllowed(s) == s
  {
    if |s| > 0 {
      KeepAllowedAll(s[1..]);
    }
  }

  /** Filtering distributes over concatenation. */
  lemma {:induction false} KeepAllowedAppend(a: string, b: string)
    ensures KeepAllowed(a + b) == KeepAllowed(a) + KeepAllowed(b)
  {
    if |a| == 0 {
      assert a + b == b;
    } else {
      KeepAllowedAppend(a[1..], b);
      var head := if Allowed(a[0]) then [a[0]] else "";
      var ab := a + b;
      assert ab[0] == a[0] && ab[1..] == a[1..] + b;
      assert KeepAllowed(ab) == head + KeepAllowed(ab[1..]);
      assert KeepAllowed(a) == head + KeepAllowed(a[1..]);
      Sorting.AppendAssoc(head, KeepAllowed(a[1..]), KeepAllowed(b));
    }
  }

  /** A disallowed character is dropped and nothing around it changes. */
  lemma KeepAllowedDrops(a: string, c: char, b: string)
    requires !Allowed(c)
    ensures KeepAllowed(a + [c] + b) == KeepAllowed(a + b)
  {
    KeepAllowedAppend(a + [c], b);
    KeepAllowedAppend(a, [c]);
    KeepAllowedAppend(a, b);
  }

  /** A transliteration that leaves ASCII text alone makes `clics_form`
      idempotent: a CLICS form is its own CLICS form. */
  lemma ClicsFormIdempotent(translit: string -> string, word: string)
    requires forall s :: AllAllowed(s) ==> translit(s) == s
    ensures ClicsForm(translit, ClicsForm(translit, word)) == ClicsForm(translit, word)
  {
    var r := ClicsForm(translit, word);
    assert AllAllowed(r);
    KeepAllowedAll(r);
    LowerClicsChars(r);
  }

  lemma LowerClicsChars(s: string)
    requires forall i :: 0 <= i < |s| ==> IsClicsChar(s[i])
    ensures Lower(s) == s
  {
  }

  /** On text the transliteration leaves alone, letters are lower-cased and
      a disallowed character such as `.` disappears: `abC` and `a.bC` both
      give `abc`. */
  lemma ClicsFormExamples(translit: string -> string)
    requires translit("abC") == "abC" && translit("a.bC") == "a.bC"
    ensures ClicsForm(translit, "abC") == "abc"
    ensures ClicsForm(translit, "a.bC") == "abc"
  {
    var s := "abC";
    assert KeepAllowed(s) == s by {
      assert AllAllowed(s);
      KeepAllowedAll(s);
    }
    assert KeepAllowed("a.bC") == KeepAllowed(s) by {
      assert "a.bC" == "a" + ['.'] + "bC" && s == "a" + "bC";
      KeepAllowedDrops("a", '.', "bC");
    }
    assert Lower(s) == "abc";
  }

  /* --------------------------------------------------------- update_row */

  /** The value `dict(zip(keys, values))` holds for `k`: `zip` stops at the
      shorter list, and a later duplicate key overwrites an earlier one. */
  function ZipLookup(keys: seq<string>, values: seq<string>, k: string): (r: Option<string>)
    ensures r.None? <==> forall i :: 0 <= i < |keys| && i < |values| ==> keys[i] != k
    ensures r.Some? ==> exists i :: 0 <= i < |keys| && i < |values| && keys[i] == k && values[i] == r.value
    decreases |keys|
  {
    var n := if |keys| < |values| then |keys| else |values|;
    if n == 0 then None
    else if keys[n - 1] == k then Some(values[n - 1])
    else ZipLookup(keys[..n - 1], values[..n - 1], k)
  }

  /** `Database.update_row`: a form-table row gets one more column,
      `clics_form`, computed from the row's `Form` value (a missing `Form`
      key is a KeyError); rows of other tables pass through. */
  function UpdateRow(clicsForm: string -> string, table: string, keys: seq<string>, values: seq<string>)
    : (r: Result<(seq<string>, seq<string>)>)
    ensures table != "FormTable" ==> r == Success((keys, values))
    ensures table == "FormTable" ==>
      (r.Success? <==> exists i :: 0 <= i < |keys| && i < |values| && keys[i] == "`Form`")
    ensures r.Success? && table == "FormTable" ==>
      && r.value.0 == keys + ["`clics_form`"]
      && |r.value.1| == |values| + 1 && r.value.1[..|values|] == values
      && exists i :: 0 <= i < |keys| && i < |values| && keys[i] == "`Form`"
                     && r.value.1[|values|] == clicsForm(values[i])
  {
    if table != "FormTable" then Success((keys, values))
    else
      match ZipLookup(keys, values, "`Form`")
      case None => Failure(KeyError("`Form`"))
      case Some(form) => Success((keys + ["`clics_form`"], values + [clicsForm(form)]))
  }

  /** With a single `Form` column, the new value is the CLICS form of that
      column's value, and dropping the last column restores the row. */
  lemma UpdateRowUnique(clicsForm: string -> string, keys: seq<string>, values: seq<string>, i: nat)
    requires i < |keys| && i < |values| && keys[i] == "`Form`"
    requires forall j :: 0 <= j < |keys| && j != i ==> keys[j] != "`Form`"
    ensures UpdateRow(clicsForm, "FormTable", keys, values).Success?
    ensures UpdateRow(clicsForm, "FormTable", keys, values).value.1 == values + [clicsForm(values[i])]
    ensures UpdateRow(clicsForm, "FormTable", keys, values).value.0[..|keys|] == keys
  {
    var r := UpdateRow(clicsForm, "FormTable", keys, values);
    assert (keys + ["`clics_form`"])[..|keys|] == keys;
    assert r.value.1[..|values|] + [r.value.1[|values|]] == r.value.1;
  }
}
