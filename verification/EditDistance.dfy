/** Insert/delete edit scripts and the shortest-script distance.

    `Distance` is the reference definition that the bounded search of module
    `Comparison` is measured against. It is tied to scripts themselves: no script
    is cheaper (`NoCheaperScript`) and one script meets it (`ShortestScript`). */
module EditDistance {
  import opened Basics

  datatype Edit<T> = Keep(item: T) | Delete(item: T) | Insert(item: T)

  function Source<T>(script: seq<Edit<T>>): seq<T> {
    if script == [] then []
    else (if script[0].Insert? then [] else [script[0].item]) + Source(script[1..])
  }

  function Target<T>(script: seq<Edit<T>>): seq<T> {
    if script == [] then []
    else (if script[0].Delete? then [] else [script[0].item]) + Target(script[1..])
  }

  /** Deletions plus insertions; kept items are free. */
  function Cost<T>(script: seq<Edit<T>>): nat {
    if script == [] then 0
    else (if script[0].Keep? then 0 else 1) + Cost(script[1..])
  }

  ghost predicate Turns<T>(script: seq<Edit<T>>, a: seq<T>, b: seq<T>) {
    Source(script) == a && Target(script) == b
  }

  function Distance<T(==)>(a: seq<T>, b: seq<T>): nat
    decreases |a| + |b|
  {
    if a == [] then |b|
    else if b == [] then |a|
    else if a[0] == b[0] then Distance(a[1..], b[1..])
    else 1 + Min(Distance(a[1..], b), Distance(a, b[1..]))
  }

  /** Removing one leading item moves the distance by at most one. */
  lemma {:induction false} DropOne<T>(a: seq<T>, b: seq<T>)
    ensures a != [] ==> Distance(a[1..], b) - 1 <= Distance(a, b) <= Distance(a[1..], b) + 1
    ensures b != [] ==> Distance(a, b[1..]) - 1 <= Distance(a, b) <= Distance(a, b[1..]) + 1
    decreases |a| + |b|
  {
    if a != [] && b != [] {
      DropOne(a[1..], b);
      DropOne(a, b[1..]);
    }
  }

  /** Advancing along a diagonal never makes the rest harder. */
  lemma DropBoth<T>(a: seq<T>, b: seq<T>)
    requires a != [] && b != []
    ensures Distance(a[1..], b[1..]) <= Distance(a, b)
  {
    if a[0] != b[0] {
      DropOne(a[1..], b);
      DropOne(a, b[1..]);
    }
  }

  /** A nonzero distance always has a first edit that decreases it. */
  lemma SomeEditHelps<T>(a: seq<T>, b: seq<T>)
    requires a != [] && b != [] ==> a[0] != b[0]
    requires 0 < Distance(a, b)
    ensures
      || (a != [] && Distance(a[1..], b) == Distance(a, b) - 1)
      || (b != [] && Distance(a, b[1..]) == Distance(a, b) - 1)
  {
  }

  lemma {:induction false} SharedPrefix<T>(p: seq<T>, a: seq<T>, b: seq<T>)
    ensures Distance(p + a, p + b) == Distance(a, b)
    decreases |p|
  {
    if p == [] {
      assert p + a == a && p + b == b;
    } else {
      SharedPrefix(p[1..], a, b);
      assert (p + a)[1..] == p[1..] + a && (p + b)[1..] == p[1..] + b;
    }
  }

  lemma {:induction false} SharedLast<T>(a: seq<T>, b: seq<T>, c: T)
    ensures Distance(a + [c], b + [c]) == Distance(a, b)
    decreases |a| + |b|
  {
    if a != [] { assert (a + [c])[1..] == a[1..] + [c]; }
    if b != [] { assert (b + [c])[1..] == b[1..] + [c]; }
    if a == [] && b == [] {
      assert a + [c] == [c] && b + [c] == [c];
    } else if a == [] {
      assert (a + [c])[1..] == [];
      SharedLast(a, b[1..], c);
    } else if b == [] {
      assert (b + [c])[1..] == [];
      SharedLast(a[1..], b, c);
    } else if a[0] == b[0] {
      SharedLast(a[1..], b[1..], c);
    } else {
      SharedLast(a[1..], b, c);
      SharedLast(a, b[1..], c);
    }
  }

  lemma {:induction false} SharedSuffix<T>(a: seq<T>, b: seq<T>, s: seq<T>)
    ensures Distance(a + s, b + s) == Distance(a, b)
    decreases |s|
  {
    if s == [] {
      assert a + s == a && b + s == b;
    } else {
      SharedSuffix(a + [s[0]], b + [s[0]], s[1..]);
      assert a + s == a + [s[0]] + s[1..] && b + s == b + [s[0]] + s[1..];
      SharedLast(a, b, s[0]);
    }
  }

  lemma {:induction false} ZeroMeansEqual<T>(a: seq<T>, b: seq<T>)
    ensures Distance(a, b) == 0 <==> a == b
    decreases |a| + |b|
  {
    if a != [] && b != [] {
      if a[0] == b[0] {
        ZeroMeansEqual(a[1..], b[1..]);
        assert a == [a[0]] + a[1..] && b == [b[0]] + b[1..];
      }
    }
  }

  /** No script between two sequences costs less than their distance. */
  lemma {:induction false} NoCheaperScript<T>(script: seq<Edit<T>>, a: seq<T>, b: seq<T>)
    requires Turns(script, a, b)
    ensures Distance(a, b) <= Cost(script)
    decreases |script|
  {
    if script != [] {
      var rest := script[1..];
      NoCheaperScript(rest, Source(rest), Target(rest));
      match script[0]
      case Keep(c) =>
        SharedPrefix([c], Source(rest), Target(rest));
      case Delete(c) =>
        assert a[1..] == Source(rest) && b == Target(rest);
        DropOne(a, b);
      case Insert(c) =>
        assert b[1..] == Target(rest) && a == Source(rest);
        DropOne(a, b);
    }
  }

  /** A script that meets the distance. */
  function ShortestScript<T(==)>(a: seq<T>, b: seq<T>): seq<Edit<T>>
    decreases |a| + |b|
  {
    if a == [] && b == [] then []
    else if a == [] then [Insert(b[0])] + ShortestScript(a, b[1..])
    else if b == [] then [Delete(a[0])] + ShortestScript(a[1..], b)
    else if a[0] == b[0] then [Keep(a[0])] + ShortestScript(a[1..], b[1..])
    else if Distance(a[1..], b) <= Distance(a, b[1..]) then [Delete(a[0])] + ShortestScript(a[1..], b)
    else [Insert(b[0])] + ShortestScript(a, b[1..])
  }

  lemma {:induction false} ShortestScriptTurns<T>(a: seq<T>, b: seq<T>)
    ensures Turns(ShortestScript(a, b), a, b)
    decreases |a| + |b|
  {
    hide Distance;
    if a != [] && b != [] {
      ShortestScriptTurns(a[1..], b[1..]);
    }
    if a != [] { ShortestScriptTurns(a[1..], b); }
    if b != [] { ShortestScriptTurns(a, b[1..]); }
  }

  lemma {:induction false} ShortestScriptCost<T>(a: seq<T>, b: seq<T>)
    ensures Cost(ShortestScript(a, b)) == Distance(a, b)
    decreases |a| + |b|
  {
    if a != [] && b != [] && a[0] == b[0] {
      ShortestScriptCost(a[1..], b[1..]);
    } else {
      if a != [] { ShortestScriptCost(a[1..], b); }
      if b != [] { ShortestScriptCost(a, b[1..]); }
    }
  }

  /** The distance is the least cost of any script: nothing is cheaper, and some
      script costs exactly that. */
  lemma DistanceIsLeast<T>(a: seq<T>, b: seq<T>)
    ensures exists script :: Turns(script, a, b) && Cost(script) == Distance(a, b)
    ensures forall script :: Turns(script, a, b) ==> Distance(a, b) <= Cost(script)
  {
    ShortestScriptTurns(a, b);
    ShortestScriptCost(a, b);
    hide Distance;
    forall script | Turns(script, a, b) ensures Distance(a, b) <= Cost(script) {
      NoCheaperScript(script, a, b);
    }
  }

  // ----- Building scripts from pieces -----

  function Kept<T>(items: seq<T>): seq<Edit<T>> {
    if items == [] then [] else [Keep(items[0])] + Kept(items[1..])
  }

  /** Delete all of one sequence, then insert all of another. */
  function Replaced<T>(gone: seq<T>, added: seq<T>): seq<Edit<T>>
    decreases |gone| + |added|
  {
    if gone != [] then [Delete(gone[0])] + Replaced(gone[1..], added)
    else if added != [] then [Insert(added[0])] + Replaced(gone, added[1..])
    else []
  }

  lemma KeptScript<T>(items: seq<T>)
    ensures Turns(Kept(items), items, items) && Cost(Kept(items)) == 0
  {
  }

  lemma ReplacedScript<T>(gone: seq<T>, added: seq<T>)
    ensures Turns(Replaced(gone, added), gone, added)
    ensures Cost(Replaced(gone, added)) == |gone| + |added|
    decreases |gone| + |added|
  {
  }

  lemma {:induction false} SourceOfBoth<T>(p: seq<Edit<T>>, q: seq<Edit<T>>)
    ensures Source(p + q) == Source(p) + Source(q)
    decreases |p|
  {
    if p == [] {
      assert p + q == q;
    } else {
      SourceOfBoth(p[1..], q);
      assert (p + q)[1..] == p[1..] + q;
      var h := if p[0].Insert? then [] else [p[0].item];
      assert (h + Source(p[1..])) + Source(q) == h + (Source(p[1..]) + Source(q));
    }
  }

  lemma {:induction false} TargetOfBoth<T>(p: seq<Edit<T>>, q: seq<Edit<T>>)
    ensures Target(p + q) == Target(p) + Target(q)
    decreases |p|
  {
    if p == [] {
      assert p + q == q;
    } else {
      TargetOfBoth(p[1..], q);
      assert (p + q)[1..] == p[1..] + q;
      var h := if p[0].Delete? then [] else [p[0].item];
      assert (h + Target(p[1..])) + Target(q) == h + (Target(p[1..]) + Target(q));
    }
  }

  lemma {:induction false} CostOfBoth<T>(p: seq<Edit<T>>, q: seq<Edit<T>>)
    ensures Cost(p + q) == Cost(p) + Cost(q)
    decreases |p|
  {
    if p == [] {
      assert p + q == q;
    } else {
      CostOfBoth(p[1..], q);
      assert (p + q)[1..] == p[1..] + q;
    }
  }

  /** Scripts for two neighbouring stretches make one for both. */
  lemma Joined<T>(p: seq<Edit<T>>, q: seq<Edit<T>>, a: seq<T>, b: seq<T>, i: nat, x: nat, j: nat, y: nat)
    requires i <= x <= |a| && j <= y <= |b|
    requires Turns(p, a[..i], b[..j]) && Turns(q, a[i..x], b[j..y])
    ensures Turns(p + q, a[..x], b[..y]) && Cost(p + q) == Cost(p) + Cost(q)
  {
    SourceOfBoth(p, q);
    TargetOfBoth(p, q);
    CostOfBoth(p, q);
    hide Source, Target, Cost;
    assert a[..i] + a[i..x] == a[..x];
    assert b[..j] + b[j..y] == b[..y];
  }
}
