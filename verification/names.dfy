/** The post-processing in `generateNames`: the raw candidates of the
    Markov generator are trimmed, sorted, de-duplicated, and every one that
    collides with an entry of the training corpus is dropped. The generator
    itself is not modelled: its output is the `candidates` parameter. */
module NameFilter {
  import opened JsString
  import opened Levenshtein
  import opened Lists

  /** A candidate collides with a corpus entry when both are equal after
      lower-casing and trimming, or when the candidate, as it stands, is at
      edit distance exactly one from the entry, as it stands. */
  predicate Collides(name: string, city: string) {
    Trim(ToLower(city)) == Trim(ToLower(name)) || Distance(name, city) == 1
  }

  /** `data.find(...)` with the collision test: the first corpus entry
      that collides with `name`, if there is one. */
  function FindCollision(name: string, corpus: seq<string>): Option<string> {
    Find(corpus, city => Collides(name, city))
  }

  /** The intended test: no corpus entry collides with the name. */
  predicate IsNovel(name: string, corpus: seq<string>) {
    FindCollision(name, corpus).None?
  }

  /** JavaScript truthiness of a string: only the empty string is falsy. */
  predicate Truthy(s: string) {
    |s| > 0
  }

  /** The filter callback as the source writes it, `!data.find(...)`: the
      entry `find` returns is negated as a truth value, so a colliding entry
      that is the empty string counts as "nothing found". */
  predicate KeptAsWritten(name: string, corpus: seq<string>) {
    match FindCollision(name, corpus)
    case None => true
    case Some(city) => !Truthy(city)
  }

  /** `.map((name) => name.trim())`: position by position, and every
      resulting name is trimmed. */
  function TrimAll(candidates: seq<string>): (r: seq<string>)
    ensures |r| == |candidates|
    ensures forall i :: 0 <= i < |r| ==> r[i] == Trim(candidates[i])
    ensures forall x :: x in r ==> IsTrimmed(x)
  {
    seq(|candidates|, i requires 0 <= i < |candidates| => Trim(candidates[i]))
  }

  /** The whole post-processing, with the intended novelty test. The
      result is strictly increasing; it holds exactly the trimmed candidates
      that collide with no corpus entry; every name in it is trimmed; and no
      name in it matches a corpus entry case-insensitively or lies at edit
      distance one from one. */
  function GenerateNames(candidates: seq<string>, corpus: seq<string>): (r: seq<string>)
    ensures StrictlySorted(r)
    ensures forall x :: x in r <==> x in TrimAll(candidates) && IsNovel(x, corpus)
    ensures forall x :: x in r ==> IsTrimmed(x)
    ensures forall x, city :: x in r && city in corpus ==>
              Trim(ToLower(city)) != Trim(ToLower(x)) && Distance(x, city) != 1
  {
    var trimmed := TrimAll(candidates);
    var sorted := Sort(trimmed);
    var unique := Uniq(sorted);
    UniqOfSortedIsStrictlySorted(sorted);
    FilterOfStrictlySorted(unique, name => IsNovel(name, corpus));
    assert forall x :: x in sorted <==> x in trimmed by {
      assert forall x :: x in sorted <==> x in multiset(sorted);
      assert forall x :: x in trimmed <==> x in multiset(trimmed);
    }
    Filter(unique, name => IsNovel(name, corpus))
  }

  /** The post-processing exactly as written, with `!data.find(...)`. */
  function GenerateNamesAsWritten(candidates: seq<string>, corpus: seq<string>): (r: seq<string>)
    ensures StrictlySorted(r)
    ensures forall x :: x in r <==> x in TrimAll(candidates) && KeptAsWritten(x, corpus)
  {
    var trimmed := TrimAll(candidates);
    var sorted := Sort(trimmed);
    var unique := Uniq(sorted);
    UniqOfSortedIsStrictlySorted(sorted);
    FilterOfStrictlySorted(unique, name => KeptAsWritten(name, corpus));
    assert forall x :: x in sorted <==> x in trimmed by {
      assert forall x :: x in sorted <==> x in multiset(sorted);
      assert forall x :: x in trimmed <==> x in multiset(trimmed);
    }
    Filter(unique, name => KeptAsWritten(name, corpus))
  }

  /** The output is the only strictly increasing list holding exactly the
      novel trimmed candidates; any other description of it must agree. */
  lemma GenerateNamesIsDetermined(candidates: seq<string>, corpus: seq<string>, out: seq<string>)
    requires StrictlySorted(out)
    requires forall x :: x in out <==> x in TrimAll(candidates) && IsNovel(x, corpus)
    ensures GenerateNames(candidates, corpus) == out
  {
    StrictlySortedUnique(GenerateNames(candidates, corpus), out);
  }

  /** Feeding the output back in as candidates returns it unchanged. */
  lemma {:induction false} GenerateNamesIdempotent(candidates: seq<string>, corpus: seq<string>)
    ensures GenerateNames(GenerateNames(candidates, corpus), corpus) == GenerateNames(candidates, corpus)
  {
    var r := GenerateNames(candidates, corpus);
    forall x
      ensures x in TrimAll(r) <==> x in r
    {
      if x in TrimAll(r) {
        var i :| 0 <= i < |r| && TrimAll(r)[i] == x;
        TrimmedIsFixed(r[i]);
      }
      if x in r {
        var i :| 0 <= i < |r| && r[i] == x;
        TrimmedIsFixed(r[i]);
        assert TrimAll(r)[i] == x;
      }
    }
    GenerateNamesIsDetermined(r, corpus, r);
  }

  lemma TrimmedIsFixed(s: string)
    requires IsTrimmed(s)
    ensures Trim(s) == s
  {
    TrimOfPadded([], s, []);
    assert [] + s + [] == s;
  }

  /** Trimming names that are already trimmed changes nothing, so mapping
      `trim` a second time is a no-op. */
  lemma {:induction false} TrimAllIdempotent(candidates: seq<string>)
    ensures TrimAll(TrimAll(candidates)) == TrimAll(candidates)
  {
    var t := TrimAll(candidates);
    forall i | 0 <= i < |t|
      ensures TrimAll(t)[i] == t[i]
    {
      TrimmedIsFixed(t[i]);
    }
  }

  /** With an empty corpus nothing is rejected: the output is the sorted,
      de-duplicated trimmed candidates. */
  lemma {:induction false} GenerateNamesWithEmptyCorpus(candidates: seq<string>)
    ensures GenerateNames(candidates, []) == Uniq(Sort(TrimAll(candidates)))
  {
    FilterKeepingAll(Uniq(Sort(TrimAll(candidates))), name => IsNovel(name, []));
  }

  /** De-duplication is exact, not case-insensitive: with an empty corpus
      every trimmed candidate survives, so "Foo" and "foo" both do. */
  lemma {:induction false} EmptyCorpusKeepsEveryCandidate(candidates: seq<string>)
    ensures forall i :: 0 <= i < |candidates| ==> Trim(candidates[i]) in GenerateNames(candidates, [])
  {
    forall i | 0 <= i < |candidates|
      ensures Trim(candidates[i]) in GenerateNames(candidates, [])
    {
      assert TrimAll(candidates)[i] == Trim(candidates[i]);
      EmptyCorpusRejectsNothing(Trim(candidates[i]));
    }
  }

  lemma EmptyCorpusRejectsNothing(name: string)
    ensures IsNovel(name, [])
  {
  }

  /** A name one edit away from a corpus entry never appears in the output
      ("Ashfore" against the entry "Ashford"), whatever the casing of the
      rest of the corpus. */
  lemma {:induction false} NearMissIsRejected(candidates: seq<string>, corpus: seq<string>, name: string, city: string)
    requires city in corpus && OneEdit(name, city)
    ensures name !in GenerateNames(candidates, corpus)
  {
    DistanceOneIff(name, city);
  }

  /** Where the corpus has no empty entry the source's test is the intended
      one, so the two pipelines agree. */
  lemma {:induction false} AsWrittenAgreesWithoutEmptyEntries(candidates: seq<string>, corpus: seq<string>)
    requires forall city :: city in corpus ==> city != ""
    ensures GenerateNamesAsWritten(candidates, corpus) == GenerateNames(candidates, corpus)
  {
    forall x
      ensures KeptAsWritten(x, corpus) <==> IsNovel(x, corpus)
    {
      var found := FindCollision(x, corpus);
      if found.Some? {
        var k :| 0 <= k < |corpus| && corpus[k] == found.value;
        assert found.value in corpus;
      }
    }
    StrictlySortedUnique(GenerateNamesAsWritten(candidates, corpus), GenerateNames(candidates, corpus));
  }

  /** A corpus read from a file that ends in a newline ends in "". The
      one-letter candidate "a" is at edit distance one from that entry, yet
      the source keeps it, because the entry `find` returns is falsy; the
      intended pipeline drops it. */
  lemma AsWrittenKeepsNearDuplicateOfEmptyEntry()
    ensures Distance("a", "") == 1
    ensures GenerateNamesAsWritten(["a"], [""]) == ["a"]
    ensures GenerateNames(["a"], [""]) == []
  {
    KeptNextToEmptyEntry("a");
  }

  /** A trimmed one-letter name against the corpus `[""]`: at edit distance
      one, kept by the source's test, dropped by the intended one. */
  lemma KeptNextToEmptyEntry(a: string)
    requires |a| == 1 && IsTrimmed(a)
    ensures Distance(a, "") == 1
    ensures GenerateNamesAsWritten([a], [""]) == [a]
    ensures GenerateNames([a], [""]) == []
  {
    var candidates, corpus := [a], [""];
    TrimmedIsFixed(a);
    assert TrimAll(candidates) == candidates;
    assert Collides(a, corpus[0]);
    assert FindCollision(a, corpus) == Some(corpus[0]);
    assert StrictlySorted(candidates);
    StrictlySortedUnique(GenerateNamesAsWritten(candidates, corpus), candidates);
    GenerateNamesIsDetermined(candidates, corpus, []);
  }

  /** Sorting puts `""` first, so once the corpus holds an empty entry the
      source keeps every trimmed one-character name, whatever the other
      entries are, while the intended test rejects it. */
  lemma EmptyFirstEntryHidesCollisions(name: string, rest: seq<string>)
    requires |name| == 1 && IsTrimmed(name)
    ensures KeptAsWritten(name, [""] + rest)
    ensures !IsNovel(name, [""] + rest)
  {
    var corpus := [""] + rest;
    assert Collides(name, corpus[0]);
    assert FindCollision(name, corpus) == Some(corpus[0]);
  }
}
