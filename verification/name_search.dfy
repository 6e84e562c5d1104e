/** `OCRService.search_names` (main.py:138-157): for each registered name,
    the 1-based numbers of the text's lines that contain it, case-blind. */
module NameSearch {
  import opened Chars

  /** `text.split('\n')`. */
  function Lines(text: string): seq<string>
  {
    Split(text, '\n')
  }

  predicate StrictlyIncreasing(ps: seq<nat>)
  {
    forall a, b :: 0 <= a < b < |ps| ==> ps[a] < ps[b]
  }

  /** `ps` lists, in increasing order, exactly the 1-based numbers of the
      lines whose lower-cased text contains `key`. */
  ghost predicate PositionsOf(ps: seq<nat>, key: string, lines: seq<string>)
  {
    && StrictlyIncreasing(ps)
    && (forall x :: x in ps ==> 1 <= x <= |lines|)
    && (forall k :: 0 <= k < |lines| ==> (k + 1 in ps <==> Contains(Lower(lines[k]), key)))
  }

  /** Some line, lower-cased, contains `key`. */
  ghost predicate Mentioned(key: string, lines: seq<string>)
  {
    exists k :: 0 <= k < |lines| && Contains(Lower(lines[k]), key)
  }

  /** What `search_names` returns: the keys are the lower-cased registered
      names found on some line, and each maps to the non-empty list of the
      lines where it is found. */
  ghost predicate NameIndex(found: map<string, seq<nat>>, lines: seq<string>, names: seq<string>)
  {
    && (forall key :: key in found ==> exists j :: 0 <= j < |names| && Lower(names[j]) == key)
    && (forall j :: 0 <= j < |names| ==> (Lower(names[j]) in found <==> Mentioned(Lower(names[j]), lines)))
    && (forall key :: key in found ==> |found[key]| > 0 && PositionsOf(found[key], key, lines))
  }

  /** The inner loop of main.py:148-152. */
  method LinePositions(key: string, lines: seq<string>) returns (ps: seq<nat>)
    ensures PositionsOf(ps, key, lines)
    ensures |ps| > 0 <==> Mentioned(key, lines)
  {
    ps := [];
    var i := 0;
    while i < |lines|
      invariant 0 <= i <= |lines|
      invariant StrictlyIncreasing(ps)
      invariant forall x :: x in ps ==> 1 <= x <= i
      invariant forall k :: 0 <= k < i ==> (k + 1 in ps <==> Contains(Lower(lines[k]), key))
    {
      if Contains(Lower(lines[i]), key) {
        assert forall a :: 0 <= a < |ps| ==> ps[a] in ps;
        ps := ps + [i + 1];
      }
      i := i + 1;
    }
    if |ps| > 0 {
      assert ps[0] in ps;
      assert Contains(Lower(lines[ps[0] - 1]), key);
    }
  }

  /** `search_names(text, registered_names)`. A name registered twice, or
      two names equal once lower-cased, share one key: the later write
      stores the same list as the earlier one. */
  method SearchNames(text: string, names: seq<string>) returns (found: map<string, seq<nat>>)
    ensures NameIndex(found, Lines(text), names)
  {
    var lines := Lines(text);
    found := map[];
    var j := 0;
    while j < |names|
      invariant 0 <= j <= |names|
      invariant forall key :: key in found ==> exists j' :: 0 <= j' < j && Lower(names[j']) == key
      invariant forall j' :: 0 <= j' < j ==> (Lower(names[j']) in found <==> Mentioned(Lower(names[j']), lines))
      invariant forall key :: key in found ==> |found[key]| > 0 && PositionsOf(found[key], key, lines)
    {
      var key := Lower(names[j]);
      var ps := LinePositions(key, lines);
      if |ps| > 0 {
        found := found[key := ps];
      }
      j := j + 1;
    }
  }

  /** Two increasing lists with the same elements are the same list. */
  lemma {:induction false} IncreasingByElements(ps: seq<nat>, qs: seq<nat>)
    requires StrictlyIncreasing(ps) && StrictlyIncreasing(qs)
    requires forall x :: x in ps <==> x in qs
    ensures ps == qs
    decreases |ps|
  {
    if ps == [] {
      assert forall k :: 0 <= k < |qs| ==> qs[k] !in ps;
    } else {
      assert ps[0] in ps && qs != [];
      assert qs[0] in qs;
      assert ps[0] in qs;
      assert qs[0] in ps;
      var m :| 0 <= m < |qs| && qs[m] == ps[0];
      var n :| 0 <= n < |ps| && ps[n] == qs[0];
      assert ps[0] <= ps[n] && qs[0] <= qs[m];
      forall x
        ensures x in ps[1..] <==> x in qs[1..]
      {
        if x in ps[1..] {
          var k :| 1 <= k < |ps| && ps[k] == x;
          assert x > ps[0];
          assert x in qs;
          var k' :| 0 <= k' < |qs| && qs[k'] == x;
          assert k' != 0;
        }
        if x in qs[1..] {
          var k :| 1 <= k < |qs| && qs[k] == x;
          assert x > qs[0];
          assert x in ps;
          var k' :| 0 <= k' < |ps| && ps[k'] == x;
          assert k' != 0;
        }
      }
      IncreasingByElements(ps[1..], qs[1..]);
      assert ps == [ps[0]] + ps[1..];
      assert qs == [qs[0]] + qs[1..];
    }
  }

  /** The positions of a key are determined by the lines: two lists that
      both describe them are equal. So `NameIndex` fixes the whole map. */
  lemma PositionsUnique(ps: seq<nat>, qs: seq<nat>, key: string, lines: seq<string>)
    requires PositionsOf(ps, key, lines) && PositionsOf(qs, key, lines)
    ensures ps == qs
  {
    forall x
      ensures x in ps <==> x in qs
    {
      if x in ps || x in qs {
        var k := x - 1;
        assert 0 <= k < |lines|;
        assert k + 1 in ps <==> Contains(Lower(lines[k]), key);
        assert k + 1 in qs <==> Contains(Lower(lines[k]), key);
      }
    }
    IncreasingByElements(ps, qs);
  }

  /** Two results that both meet `NameIndex` are the same map. */
  lemma NameIndexUnique(f: map<string, seq<nat>>, g: map<string, seq<nat>>, lines: seq<string>, names: seq<string>)
    requires NameIndex(f, lines, names) && NameIndex(g, lines, names)
    ensures f == g
  {
    forall key | key in f
      ensures key in g && f[key] == g[key]
    {
      var j :| 0 <= j < |names| && Lower(names[j]) == key;
      PositionsUnique(f[key], g[key], key, lines);
    }
    forall key | key in g
      ensures key in f
    {
      var j :| 0 <= j < |names| && Lower(names[j]) == key;
    }
  }
}
