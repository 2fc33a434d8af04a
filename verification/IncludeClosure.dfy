/**
 * The include closure behind the stage fingerprints (scripts/gen_stage_fingerprints.py:90-117): a
 * worklist over a finite, possibly cyclic include graph.
 */
module IncludeClosure {
  import opened Values

  type Path = string

  /**
   * A repository tree: which paths are files, the quoted includes of every readable file, where an
   * include written in a file may live, in search order, and what resolve() makes of a path.
   */
  datatype Tree = Tree(files: set<Path>, includes: map<Path, seq<string>>, candidates: (Path, string) -> seq<Path>,
                       canonical: Path -> Path)

  function FirstFile(t: Tree, paths: seq<Path>): Option<Path> {
    if paths == [] then None
    else if paths[0] in t.files then Some(t.canonical(paths[0]))
    else FirstFile(t, paths[1..])
  }

  /** resolve_include(). */
  function Resolved(t: Tree, inc: string, f: Path): Option<Path> {
    FirstFile(t, t.candidates(f, inc))
  }

  /** File `f` has an include that resolves to `g`. */
  ghost predicate Includes(t: Tree, f: Path, g: Path) {
    f in t.includes && exists k :: 0 <= k < |t.includes[f]| && Resolved(t, t.includes[f][k], f) == Some(g)
  }

  /** A chain of existing files, each included by the one before. */
  ghost predicate IsChain(t: Tree, chain: seq<Path>) {
    && chain != []
    && (forall i :: 0 <= i < |chain| ==> chain[i] in t.files)
    && (forall i :: 0 < i < |chain| ==> Includes(t, chain[i - 1], chain[i]))
  }

  ghost predicate StartsAt(t: Tree, seeds: set<Path>, p: Path) {
    exists s :: s in seeds && t.canonical(s) == p
  }

  /** `g` is an existing file reached from one of the seeds through includes. */
  ghost predicate Reaches(t: Tree, seeds: set<Path>, g: Path) {
    exists chain :: IsChain(t, chain) && StartsAt(t, seeds, chain[0]) && chain[|chain| - 1] == g
  }

  /** `r` is the closure of the seeds, as a set: the order they are listed in does not matter. */
  ghost predicate IsClosure(t: Tree, seeds: set<Path>, r: set<Path>) {
    forall g :: g in r <==> Reaches(t, seeds, g)
  }

  lemma SeedReached(t: Tree, seeds: set<Path>, p: Path)
    requires StartsAt(t, seeds, p) && p in t.files
    ensures Reaches(t, seeds, p)
  {
    assert IsChain(t, [p]);
  }

  lemma IncludeReached(t: Tree, seeds: set<Path>, f: Path, g: Path)
    requires Reaches(t, seeds, f) && Includes(t, f, g) && g in t.files
    ensures Reaches(t, seeds, g)
  {
    var chain :| IsChain(t, chain) && StartsAt(t, seeds, chain[0]) && chain[|chain| - 1] == f;
    var longer := chain + [g];
    assert IsChain(t, longer) && longer[0] == chain[0];
  }

  /** A set that holds the seeds and everything its members include holds everything reached. */
  ghost predicate Closed(t: Tree, seeds: set<Path>, r: set<Path>, pending: set<Path>) {
    && (forall p :: StartsAt(t, seeds, p) && p in t.files ==> p in r || p in pending)
    && (forall f, g :: f in r && Includes(t, f, g) && g in t.files ==> g in r || g in pending)
  }

  lemma {:induction false} ChainStaysInside(t: Tree, seeds: set<Path>, r: set<Path>, chain: seq<Path>)
    requires Closed(t, seeds, r, {}) && IsChain(t, chain) && StartsAt(t, seeds, chain[0])
    ensures chain[|chain| - 1] in r
    decreases |chain|
  {
    if |chain| > 1 {
      var shorter, last := chain[..|chain| - 1], |chain| - 1;
      ChainStaysInside(t, seeds, r, shorter);
      assert Includes(t, chain[last - 1], chain[last]);
    }
  }

  // ---- the worklist ----

  method FindFile(t: Tree, paths: seq<Path>) returns (r: Option<Path>)
    ensures r == FirstFile(t, paths)
  {
    for i := 0 to |paths|
      invariant FirstFile(t, paths) == FirstFile(t, paths[i..])
    {
      assert paths[i..][0] == paths[i] && paths[i..][1..] == paths[i + 1..];
      if paths[i] in t.files {
        return Some(t.canonical(paths[i]));
      }
    }
    r := None;
  }

  /** The resolvable includes of `f` that have not been seen. */
  method UnseenIncludes(t: Tree, f: Path, seen: set<Path>) returns (push: seq<Path>)
    requires f in t.includes
    ensures forall g :: g in push ==> Includes(t, f, g)
    ensures forall g :: Includes(t, f, g) ==> g in push || g in seen
  {
    push := [];
    var incs := t.includes[f];
    for k := 0 to |incs|
      invariant forall g :: g in push ==> Includes(t, f, g)
      invariant forall j :: 0 <= j < k && Resolved(t, incs[j], f).Some? ==>
        Resolved(t, incs[j], f).value in push || Resolved(t, incs[j], f).value in seen
    {
      var r := FindFile(t, t.candidates(f, incs[k]));
      assert r == Resolved(t, incs[k], f);
      if r.Some? && r.value !in seen {
        push := push + [r.value];
      }
    }
  }

  method CanonicalSeeds(t: Tree, seeds: seq<Path>) returns (stack: seq<Path>)
    ensures |stack| == |seeds| && forall i :: 0 <= i < |seeds| ==> stack[i] == t.canonical(seeds[i])
  {
    stack := [];
    for i := 0 to |seeds|
      invariant |stack| == i && forall k :: 0 <= k < i ==> stack[k] == t.canonical(seeds[k])
    {
      stack := stack + [t.canonical(seeds[i])];
    }
  }

  function SetOf(s: seq<Path>): (r: set<Path>)
    ensures forall p :: p in r <==> p in s
  {
    set p | p in s
  }

  /** The worklist so far: everything seen is reached, everything pending may only add reached files. */
  ghost predicate Exploring(t: Tree, seeds: set<Path>, seen: set<Path>, stack: seq<Path>) {
    && seen <= t.files
    && (forall f {:trigger Reaches(t, seeds, f)} :: f in seen ==> Reaches(t, seeds, f))
    && (forall p {:trigger Reaches(t, seeds, p)} :: p in stack && p in t.files ==> Reaches(t, seeds, p))
    && Closed(t, seeds, seen, SetOf(stack))
  }

  lemma StartExploring(t: Tree, seeds: seq<Path>, stack: seq<Path>)
    requires |stack| == |seeds| && forall i :: 0 <= i < |seeds| ==> stack[i] == t.canonical(seeds[i])
    ensures Exploring(t, SetOf(seeds), {}, stack)
  {
    forall p | p in stack && p in t.files ensures Reaches(t, SetOf(seeds), p) {
      var i :| 0 <= i < |stack| && stack[i] == p;
      assert seeds[i] in SetOf(seeds);
      SeedReached(t, SetOf(seeds), p);
    }
    forall p | StartsAt(t, SetOf(seeds), p) ensures p in SetOf(stack) {
      var s :| s in SetOf(seeds) && t.canonical(s) == p;
      var i :| 0 <= i < |seeds| && seeds[i] == s;
      assert stack[i] == p;
    }
  }

  /** Popping `f` without using it, or with everything it includes pushed. */
  lemma ExploreMore(t: Tree, seeds: set<Path>, seen: set<Path>, stack: seq<Path>, f: Path, push: seq<Path>)
    requires Exploring(t, seeds, seen, stack + [f]) && f in t.files
    requires forall g :: g in push ==> Includes(t, f, g)
    requires forall g :: Includes(t, f, g) ==> g in push || g in seen + {f}
    ensures Exploring(t, seeds, seen + {f}, stack + push)
  {
    var before, after := SetOf(stack + [f]), SetOf(stack + push);
    assert f in stack + [f];
    forall p | p in stack + push && p in t.files ensures Reaches(t, seeds, p) {
      if p in push {
        IncludeReached(t, seeds, f, p);
      } else {
        assert p in stack + [f];
      }
    }
    forall p | p in before ensures p in after || p == f {
    }
  }

  lemma SkipPopped(t: Tree, seeds: set<Path>, seen: set<Path>, stack: seq<Path>, f: Path)
    requires Exploring(t, seeds, seen, stack + [f]) && (f in seen || f !in t.files)
    ensures Exploring(t, seeds, seen, stack)
  {
  }

  /**
   * closure(): exactly the existing files reachable from the seeds. Terminates on cyclic graphs
   * because each round either sees a new file or shortens the stack.
   */
  method Closure(t: Tree, seeds: seq<Path>) returns (seen: set<Path>)
    ensures IsClosure(t, SetOf(seeds), seen)
  {
    seen := {};
    var stack := CanonicalSeeds(t, seeds);
    StartExploring(t, seeds, stack);
    ghost var from := SetOf(seeds);
    while stack != []
      invariant Exploring(t, from, seen, stack)
      decreases |t.files - seen|, |stack|
    {
      seen, stack := Explore(t, from, seen, stack[..|stack| - 1], stack[|stack| - 1], stack);
    }
    ExploredAll(t, from, seen);
  }

  /** One round: `f` has just been popped off `whole`. */
  method Explore(t: Tree, ghost seeds: set<Path>, seen: set<Path>, rest: seq<Path>, f: Path, ghost whole: seq<Path>)
    returns (now: set<Path>, stack: seq<Path>)
    requires Exploring(t, seeds, seen, whole) && whole == rest + [f]
    ensures Exploring(t, seeds, now, stack)
    ensures |t.files - now| < |t.files - seen| || (now == seen && |stack| < |whole|)
  {
    if f in seen || f !in t.files {
      SkipPopped(t, seeds, seen, rest, f);
      return seen, rest;
    }
    now := seen + {f};
    var push: seq<Path> := [];
    if f in t.includes {
      push := UnseenIncludes(t, f, now);
    }
    ExploreMore(t, seeds, seen, rest, f, push);
    SmallerRest(t.files, seen, f);
    stack := rest + push;
  }

  lemma SmallerRest(files: set<Path>, seen: set<Path>, f: Path)
    requires f in files && f !in seen
    ensures |files - (seen + {f})| < |files - seen|
  {
    assert files - (seen + {f}) == files - seen - {f};
  }

  lemma ExploredAll(t: Tree, seeds: set<Path>, seen: set<Path>)
    requires Exploring(t, seeds, seen, [])
    ensures IsClosure(t, seeds, seen)
  {
    assert Closed(t, seeds, seen, {});
    forall g | Reaches(t, seeds, g) ensures g in seen {
      var chain :| IsChain(t, chain) && StartsAt(t, seeds, chain[0]) && chain[|chain| - 1] == g;
      ChainStaysInside(t, seeds, seen, chain);
    }
  }

  // ---- what follows for fingerprints ----

  /** The result depends on the set of seeds only, and more seeds never lose a file. */
  lemma ClosureIsMonotone(t: Tree, a: set<Path>, b: set<Path>, ra: set<Path>, rb: set<Path>)
    requires IsClosure(t, a, ra) && IsClosure(t, b, rb) && a <= b
    ensures ra <= rb
    ensures a == b ==> ra == rb
  {
  }

  /** Closing a closure adds nothing, when canonical paths are their own canonical form. */
  lemma ClosureIsIdempotent(t: Tree, seeds: set<Path>, r: set<Path>, again: set<Path>)
    requires forall p :: t.canonical(t.canonical(p)) == t.canonical(p)
    requires IsClosure(t, seeds, r) && IsClosure(t, r, again)
    ensures again == r
  {
    forall g | g in r ensures g in again {
      ReachedIsCanonical(t, seeds, g);
      assert StartsAt(t, r, g);
      SeedReached(t, r, g);
    }
    forall g | g in again ensures g in r {
      var chain :| IsChain(t, chain) && StartsAt(t, r, chain[0]) && chain[|chain| - 1] == g;
      ReachedFromReached(t, seeds, r, chain);
    }
  }

  lemma {:induction false} ReachedFromReached(t: Tree, seeds: set<Path>, r: set<Path>, chain: seq<Path>)
    requires forall p :: t.canonical(t.canonical(p)) == t.canonical(p)
    requires IsClosure(t, seeds, r) && IsChain(t, chain) && StartsAt(t, r, chain[0])
    ensures chain[|chain| - 1] in r
    decreases |chain|
  {
    var last := |chain| - 1;
    if last == 0 {
      var s :| s in r && t.canonical(s) == chain[0];
      ReachedIsCanonical(t, seeds, s);
    } else {
      ReachedFromReached(t, seeds, r, chain[..last]);
      assert Includes(t, chain[last - 1], chain[last]);
      IncludeReached(t, seeds, chain[last - 1], chain[last]);
    }
  }

  lemma {:induction false} FirstFileIsCanonical(t: Tree, paths: seq<Path>)
    ensures FirstFile(t, paths).Some? ==> exists p :: t.canonical(p) == FirstFile(t, paths).value
  {
    if paths != [] && paths[0] !in t.files {
      FirstFileIsCanonical(t, paths[1..]);
    }
  }

  lemma ReachedIsCanonical(t: Tree, seeds: set<Path>, g: Path)
    requires forall p :: t.canonical(t.canonical(p)) == t.canonical(p)
    requires Reaches(t, seeds, g)
    ensures t.canonical(g) == g && g in t.files
  {
    var chain :| IsChain(t, chain) && StartsAt(t, seeds, chain[0]) && chain[|chain| - 1] == g;
    var last := |chain| - 1;
    if last > 0 {
      assert Includes(t, chain[last - 1], chain[last]);
      var k :| 0 <= k < |t.includes[chain[last - 1]]| &&
          Resolved(t, t.includes[chain[last - 1]][k], chain[last - 1]) == Some(g);
      FirstFileIsCanonical(t, t.candidates(chain[last - 1], t.includes[chain[last - 1]][k]));
    }
  }
}
