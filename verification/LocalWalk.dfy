/** Listing a local directory as a bucket: walking only the directory a prefix points into
    finds the same keys as walking everything. */
module LocalWalk {
  import opened Wrappers
  import opened Order
  import opened Sorting
  import Listing

  /** A directory without symbolic links. */
  datatype Dir = Dir(files: seq<string>, subs: Subs)
  datatype Subs = NoMore | Sub(name: string, dir: Dir, rest: Subs)

  type Path = seq<string>

  predicate HasSlash(s: string) { '/' in s }

  /** A name a directory entry can have. */
  predicate IsComponent(s: string) { s != "" && !HasSlash(s) && s != "." && s != ".." }

  predicate DistinctNames(names: seq<string>) {
    forall i, j :: 0 <= i < j < |names| ==> names[i] != names[j]
  }

  function SubNames(subs: Subs): set<string> {
    match subs case NoMore => {} case Sub(n, _, rest) => {n} + SubNames(rest)
  }

  predicate WellFormed(d: Dir) {
    DistinctNames(d.files) && (forall f :: f in d.files ==> IsComponent(f)) && SubsWellFormed(d.subs)
  }

  predicate SubsWellFormed(subs: Subs) {
    match subs
    case NoMore => true
    case Sub(n, d, rest) => IsComponent(n) && n !in SubNames(rest) && WellFormed(d) && SubsWellFormed(rest)
  }

  function FindSub(subs: Subs, name: string): Option<Dir> {
    match subs
    case NoMore => None
    case Sub(n, d, rest) => if n == name then Some(d) else FindSub(rest, name)
  }

  function FindDir(d: Dir, path: Path): Option<Dir>
    decreases |path|
  {
    if path == [] then Some(d)
    else match FindSub(d.subs, path[0]) case None => None case Some(s) => FindDir(s, path[1..])
  }

  predicate FileAt(d: Dir, path: Path, name: string) {
    FindDir(d, path).Some? && name in FindDir(d, path).value.files
  }

  // --- Keys --------------------------------------------------------------------------------------

  /** "" for the bucket's own directory, otherwise the path with a slash after every name. */
  function Base(path: Path): string {
    if path == [] then "" else path[0] + ("/" + Base(path[1..]))
  }

  /** The bucket has an object with this key. */
  ghost predicate HasKey(d: Dir, key: string) {
    exists path, name :: FileAt(d, path, name) && key == Base(path) + name
  }

  // --- The walk ------------------------------------------------------------------------------------

  /** `os.walk`: the path of every directory below `d`, itself first, with its files. */
  function Walk(path: Path, d: Dir): seq<(Path, seq<string>)>
    decreases d, 1
  {
    [(path, d.files)] + WalkSubs(path, d.subs)
  }

  function WalkSubs(path: Path, subs: Subs): seq<(Path, seq<string>)>
    decreases subs, 0
  {
    match subs
    case NoMore => []
    case Sub(n, d, rest) => Walk(path + [n], d) + WalkSubs(path, rest)
  }

  /** `path` is a directory of the walk that started at `start` in `d`, and has these files. */
  ghost predicate Visited(start: Path, d: Dir, step: (Path, seq<string>)) {
    start <= step.0 && FindDir(d, step.0[|start|..]) == Some(Dir(step.1, FindDirSubs(d, step.0[|start|..])))
  }

  ghost function FindDirSubs(d: Dir, path: Path): Subs {
    match FindDir(d, path) case None => NoMore case Some(x) => x.subs
  }

  ghost predicate VisitedSubs(start: Path, subs: Subs, step: (Path, seq<string>)) {
    start < step.0 && FindSub(subs, step.0[|start|]).Some? &&
    Visited(start + [step.0[|start|]], FindSub(subs, step.0[|start|]).value, step)
  }

  lemma {:induction false} SubNamesAreFound(subs: Subs, name: string)
    ensures FindSub(subs, name).Some? <==> name in SubNames(subs)
  {
    if subs.Sub? { SubNamesAreFound(subs.rest, name); }
  }

  lemma {:induction false} FoundWellFormed(subs: Subs, name: string)
    requires SubsWellFormed(subs) && FindSub(subs, name).Some?
    ensures WellFormed(FindSub(subs, name).value) && IsComponent(name)
  {
    if subs.name != name { FoundWellFormed(subs.rest, name); }
  }

  /** Steps below a directory: itself, or below one of its sub-directories. */
  lemma VisitedSplits(start: Path, d: Dir, step: (Path, seq<string>))
    ensures Visited(start, d, step) <==> step == (start, d.files) || VisitedSubs(start, d.subs, step)
  {
    if start <= step.0 {
      var rest := step.0[|start|..];
      if rest == [] {
        assert step.0 == start;
      } else {
        var n := step.0[|start|];
        assert rest[0] == n && start + [n] <= step.0 && rest[1..] == step.0[|start + [n]|..];
      }
    }
  }

  /** The walk visits exactly the directories there are, with their files. */
  lemma {:induction false} WalkIsExact(start: Path, d: Dir)
    requires WellFormed(d)
    ensures forall step :: step in Walk(start, d) <==> Visited(start, d, step)
    decreases d, 1
  {
    WalkSubsIsExact(start, d.subs);
    forall step { VisitedSplits(start, d, step); }
  }

  lemma {:induction false} WalkSubsIsExact(start: Path, subs: Subs)
    requires SubsWellFormed(subs)
    ensures forall step :: step in WalkSubs(start, subs) <==> VisitedSubs(start, subs, step)
    decreases subs, 0
  {
    match subs
    case NoMore =>
    case Sub(n, d, rest) =>
      WalkIsExact(start + [n], d);
      WalkSubsIsExact(start, rest);
      SubNamesAreFound(rest, n);
      forall step
        ensures step in WalkSubs(start, subs) <==> VisitedSubs(start, subs, step)
      {
        if start + [n] <= step.0 {
          assert (start + [n])[|start|] == n;
          assert step.0[|start|] == n && start <= step.0;
        }
      }
  }

  // --- Keys of a walk --------------------------------------------------------------------------------

  predicate AllSlashFree(path: Path) { forall i :: 0 <= i < |path| ==> !HasSlash(path[i]) }

  function FirstSlash(s: string): (n: nat)
    ensures n <= |s|
  {
    if s == "" || s[0] == '/' then 0 else 1 + FirstSlash(s[1..])
  }

  lemma {:induction false} FirstSlashAfter(a: string, x: string)
    requires !HasSlash(a)
    ensures FirstSlash(a + ("/" + x)) == |a|
    decreases |a|
  {
    if a == "" {
      assert a + ("/" + x) == "/" + x;
    } else {
      assert a[0] in a;
      assert (a + ("/" + x))[1..] == a[1..] + ("/" + x);
      FirstSlashAfter(a[1..], x);
    }
  }

  lemma {:induction false} NoFirstSlash(a: string)
    requires !HasSlash(a)
    ensures FirstSlash(a) == |a|
    decreases |a|
  {
    if a != "" {
      assert a[0] in a;
      NoFirstSlash(a[1..]);
    }
  }

  lemma {:induction false} FirstSlashInPrefix(s: string, t: string)
    requires s <= t && FirstSlash(s) < |s|
    ensures FirstSlash(t) == FirstSlash(s)
    decreases |s|
  {
    if s[0] != '/' {
      FirstSlashInPrefix(s[1..], t[1..]);
    }
  }

  /** A name without a slash ends at the first slash. */
  lemma HeadDecided(a: string, b: string, x: string, y: string)
    requires !HasSlash(a) && !HasSlash(b) && a + ("/" + x) <= b + ("/" + y)
    ensures a == b && x <= y
  {
    var s, t := a + ("/" + x), b + ("/" + y);
    FirstSlashAfter(a, x);
    FirstSlashAfter(b, y);
    FirstSlashInPrefix(s, t);
    assert a == s[..|a|] == t[..|b|] == b;
    assert x == s[|a| + 1..] && y == t[|b| + 1..];
    assert s[|a| + 1..] <= t[|a| + 1..];
  }

  /** A key that starts with the text of a path has that path. */
  lemma {:induction false} PathDecided(cs: Path, path: Path, name: string)
    requires AllSlashFree(cs) && AllSlashFree(path) && !HasSlash(name) && Base(cs) <= Base(path) + name
    ensures cs <= path
    decreases |cs|
  {
    if cs != [] {
      NoFirstSlash(name);
      FirstSlashAfter(cs[0], Base(cs[1..]));
      if path == [] {
        assert Base(path) + name == name;
        FirstSlashInPrefix(Base(cs), name);
        assert false;
      }
      assert Base(path) + name == path[0] + ("/" + (Base(path[1..]) + name));
      HeadDecided(cs[0], path[0], Base(cs[1..]), Base(path[1..]) + name);
      PathDecided(cs[1..], path[1..], name);
      assert cs == [cs[0]] + cs[1..] && path == [path[0]] + path[1..];
    }
  }

  lemma KeysDiffer(p: Path, m: string, q: Path, n: string)
    requires AllSlashFree(p) && AllSlashFree(q) && !HasSlash(m) && !HasSlash(n)
    requires Base(p) + m == Base(q) + n
    ensures p == q && m == n
  {
    assert Base(p) <= Base(p) + m && Base(q) <= Base(q) + n;
    PathDecided(p, q, n);
    PathDecided(q, p, m);
    assert m == (Base(p) + m)[|Base(p)|..];
    assert n == (Base(q) + n)[|Base(q)|..];
  }

  lemma {:induction false} BaseAppends(p: Path, q: Path)
    ensures Base(p + q) == Base(p) + Base(q)
    decreases |p|
  {
    if p == [] {
      assert p + q == q;
    } else {
      assert (p + q)[1..] == p[1..] + q;
      BaseAppends(p[1..], q);
    }
  }

  /** A path that leads to a directory is made of proper names. */
  lemma {:induction false} FoundPathIsProper(d: Dir, path: Path)
    requires WellFormed(d) && FindDir(d, path).Some?
    ensures WellFormed(FindDir(d, path).value) && forall i :: 0 <= i < |path| ==> IsComponent(path[i])
    decreases |path|
  {
    if path != [] {
      FoundWellFormed(d.subs, path[0]);
      FoundPathIsProper(FindSub(d.subs, path[0]).value, path[1..]);
      assert forall i :: 0 < i < |path| ==> path[i] == path[1..][i - 1];
    }
  }

  lemma {:induction false} FindThrough(d: Dir, p: Path, q: Path)
    requires FindDir(d, p).Some?
    ensures FindDir(d, p + q) == FindDir(FindDir(d, p).value, q)
    decreases |p|
  {
    if p == [] {
      assert p + q == q;
    } else {
      assert (p + q)[1..] == p[1..] + q;
      FindThrough(FindSub(d.subs, p[0]).value, p[1..], q);
    }
  }

  /** The paths of a walk are all different. */
  lemma {:induction false} WalkPathsDiffer(start: Path, d: Dir)
    requires WellFormed(d)
    ensures forall i, j :: 0 <= i < j < |Walk(start, d)| ==> Walk(start, d)[i].0 != Walk(start, d)[j].0
    decreases d, 1
  {
    WalkSubsPathsDiffer(start, d.subs);
    WalkSubsIsExact(start, d.subs);
    var below := WalkSubs(start, d.subs);
    assert forall i :: 0 <= i < |below| ==> below[i] in below;
  }

  lemma {:induction false} WalkSubsPathsDiffer(start: Path, subs: Subs)
    requires SubsWellFormed(subs)
    ensures forall i, j :: 0 <= i < j < |WalkSubs(start, subs)| ==>
              WalkSubs(start, subs)[i].0 != WalkSubs(start, subs)[j].0
    decreases subs, 0
  {
    match subs
    case NoMore =>
    case Sub(n, d, rest) =>
      var here, others := Walk(start + [n], d), WalkSubs(start, rest);
      WalkPathsDiffer(start + [n], d);
      WalkSubsPathsDiffer(start, rest);
      WalkIsExact(start + [n], d);
      WalkSubsIsExact(start, rest);
      SubNamesAreFound(rest, n);
      forall i, j | 0 <= i < |here| && 0 <= j < |others| ensures here[i].0 != others[j].0 {
        assert here[i] in here && others[j] in others;
        assert (start + [n])[|start|] == n == here[i].0[|start|];
      }
  }

  /** The keys the listing collects, directory by directory: those that start with the prefix. */
  function Collected(steps: seq<(Path, seq<string>)>, prefix: string): seq<string> {
    if steps == [] then []
    else
      var n := |steps| - 1;
      Collected(steps[..n], prefix) + Matching(Base(steps[n].0), steps[n].1, prefix)
  }

  function Matching(base: string, files: seq<string>, prefix: string): (r: seq<string>)
    ensures forall k :: k in r <==> prefix <= k && exists f :: f in files && k == base + f
  {
    if files == [] then []
    else
      var n := |files| - 1;
      var before := Matching(base, files[..n], prefix);
      assert files == files[..n] + [files[n]];
      if prefix <= base + files[n] then before + [base + files[n]] else before
  }

  lemma {:induction false} CollectedMembers(steps: seq<(Path, seq<string>)>, prefix: string)
    ensures forall k :: k in Collected(steps, prefix) <==>
              prefix <= k && exists step :: step in steps && exists f :: f in step.1 && k == Base(step.0) + f
  {
    if steps != [] {
      var n := |steps| - 1;
      CollectedMembers(steps[..n], prefix);
      assert steps == steps[..n] + [steps[n]];
    }
  }

  lemma {:induction false} MatchingDistinct(base: string, files: seq<string>, prefix: string)
    requires DistinctNames(files)
    ensures DistinctNames(Matching(base, files, prefix))
  {
    if files != [] {
      var n := |files| - 1;
      var before := Matching(base, files[..n], prefix);
      MatchingDistinct(base, files[..n], prefix);
      forall i | 0 <= i < |before| ensures before[i] != base + files[n] {
        assert before[i] in before;
        var f :| f in files[..n] && before[i] == base + f;
        assert (base + f)[|base|..] == f && (base + files[n])[|base|..] == files[n];
      }
    }
  }

  ghost predicate ProperSteps(steps: seq<(Path, seq<string>)>) {
    && (forall i, j :: 0 <= i < j < |steps| ==> steps[i].0 != steps[j].0)
    && (forall step :: step in steps ==> AllSlashFree(step.0) && DistinctNames(step.1))
    && (forall step :: step in steps ==> forall f :: f in step.1 ==> !HasSlash(f))
  }

  lemma {:induction false} CollectedDistinct(steps: seq<(Path, seq<string>)>, prefix: string)
    requires ProperSteps(steps)
    ensures DistinctNames(Collected(steps, prefix))
  {
    if steps != [] {
      var n := |steps| - 1;
      var before, new_keys := Collected(steps[..n], prefix), Matching(Base(steps[n].0), steps[n].1, prefix);
      CollectedDistinct(steps[..n], prefix);
      assert steps[n] in steps;
      MatchingDistinct(Base(steps[n].0), steps[n].1, prefix);
      CollectedMembers(steps[..n], prefix);
      forall i, j | 0 <= i < |before| && 0 <= j < |new_keys| ensures before[i] != new_keys[j] {
        assert before[i] in before && new_keys[j] in new_keys;
        var step :| step in steps[..n] && exists f :: f in step.1 && before[i] == Base(step.0) + f;
        var f :| f in step.1 && before[i] == Base(step.0) + f;
        var g :| g in steps[n].1 && new_keys[j] == Base(steps[n].0) + g;
        assert step in steps;
        if before[i] == new_keys[j] { KeysDiffer(step.0, f, steps[n].0, g); }
      }
    }
  }

  lemma WalkIsProper(start: Path, d: Dir)
    requires WellFormed(d) && AllSlashFree(start)
    ensures ProperSteps(Walk(start, d))
  {
    WalkIsExact(start, d);
    WalkPathsDiffer(start, d);
    forall step | step in Walk(start, d)
      ensures AllSlashFree(step.0) && DistinctNames(step.1) && forall f :: f in step.1 ==> !HasSlash(f)
    {
      var rest := step.0[|start|..];
      assert step.0 == start + rest;
      FoundPathIsProper(d, rest);
    }
  }

  // --- Where the walk starts ----------------------------------------------------------------------------

  /** `prefix.rpartition("/")[0]` */
  function DirectoryOf(prefix: string): (r: string)
    ensures r != "" ==> r + "/" <= prefix
  {
    if prefix == "" then ""
    else
      var n := |prefix| - 1;
      if prefix[n] == '/' then prefix[..n] else DirectoryOf(prefix[..n])
  }

  function Split(s: string): (r: Path)
    ensures r != [] && AllSlashFree(r) && Base(r) == s + "/"
  {
    if s == "" then [""]
    else
      var rest := Split(s[1..]);
      if s[0] == '/' then
        assert Base([""] + rest) == "" + ("/" + Base(([""] + rest)[1..]));
        [""] + rest
      else
        var r := [[s[0]] + rest[0]] + rest[1..];
        assert Base(r) == ([s[0]] + rest[0]) + ("/" + Base(r[1..])) && r[1..] == rest[1..];
        assert Base(rest) == rest[0] + ("/" + Base(rest[1..]));
        assert Base(r) == [s[0]] + Base(rest) && s == [s[0]] + s[1..];
        r
  }

  /** Resolving a path name by name: empty names and "." stay, ".." goes up. */
  function Resolve(at: Path, names: Path): Path
    decreases |names|
  {
    if names == [] then at
    else if names[0] == "" || names[0] == "." then Resolve(at, names[1..])
    else if names[0] == ".." then Resolve(if at == [] then at else at[..|at| - 1], names[1..])
    else Resolve(at + [names[0]], names[1..])
  }

  /** `(bucket_path / directory).resolve()`; an absolute directory replaces the bucket's path. */
  function StartOf(bucket: Path, directory: string): Path {
    Resolve(if directory != "" && directory[0] == '/' then [] else bucket, Split(directory))
  }

  lemma {:induction false} ProperPathResolves(at: Path, names: Path)
    requires forall i :: 0 <= i < |names| ==> IsComponent(names[i])
    ensures Resolve(at, names) == at + names
    decreases |names|
  {
    if names == [] {
      assert at + names == at;
    } else {
      ProperPathResolves(at + [names[0]], names[1..]);
      assert (at + [names[0]]) + names[1..] == at + names;
    }
  }

  /** The path below the bucket at which the walk starts, if it is a directory of the bucket. */
  function WalkStart(root: Dir, bucket: Path, prefix: string): Option<Path> {
    var directory := DirectoryOf(prefix);
    if directory == "" then Some([])
    else
      var start := StartOf(bucket, directory);
      if bucket <= start && FindDir(root, start[|bucket|..]).Some? then Some(start[|bucket|..]) else None
  }

  /** The directory that holds a key with the prefix is at or below where the walk starts. */
  lemma KeyIsBelowStart(root: Dir, bucket: Path, prefix: string, path: Path, name: string)
    requires WellFormed(root) && FileAt(root, path, name) && prefix <= Base(path) + name
    ensures WalkStart(root, bucket, prefix).Some? && WalkStart(root, bucket, prefix).value <= path
  {
    var directory := DirectoryOf(prefix);
    if directory != "" {
      var names := Split(directory);
      FoundPathIsProper(root, path);
      assert name in FindDir(root, path).value.files;
      assert Base(names) <= Base(path) + name;
      PathDecided(names, path, name);
      assert forall i :: 0 <= i < |names| ==> names[i] == path[i];
      assert directory[0] != '/' by { NamesStart(names, directory); }
      ProperPathResolves(bucket, names);
      assert (bucket + names)[|bucket|..] == names;
      assert path == names + path[|names|..];
      FindPrefix(root, names, path[|names|..]);
    }
  }

  lemma NamesStart(names: Path, directory: string)
    requires names != [] && names[0] != "" && !HasSlash(names[0]) && Base(names) == directory + "/" && directory != ""
    ensures directory[0] != '/'
  {
    assert Base(names)[0] == names[0][0];
    assert names[0][0] in names[0];
  }

  lemma {:induction false} FindPrefix(d: Dir, p: Path, q: Path)
    requires FindDir(d, p + q).Some?
    ensures FindDir(d, p).Some?
    decreases |p|
  {
    if p != [] {
      assert (p + q)[1..] == p[1..] + q;
      FindPrefix(FindSub(d.subs, p[0]).value, p[1..], q);
    }
  }

  function CollectedFrom(root: Dir, start: Option<Path>, prefix: string): seq<string>
    requires start.Some? ==> FindDir(root, start.value).Some?
  {
    if start.None? then [] else Collected(Walk(start.value, FindDir(root, start.value).value), prefix)
  }

  /** Walking from where the prefix points finds exactly the keys with the prefix, whatever
      ".", ".." and empty names the prefix has. */
  lemma NarrowWalkIsExact(root: Dir, bucket: Path, prefix: string)
    requires WellFormed(root)
    ensures var start := WalkStart(root, bucket, prefix);
            var keys := CollectedFrom(root, start, prefix);
            DistinctNames(keys) && forall k :: k in keys <==> prefix <= k && HasKey(root, k)
  {
    var start := WalkStart(root, bucket, prefix);
    forall k | prefix <= k && HasKey(root, k) ensures start.Some? {
      var path, name :| FileAt(root, path, name) && k == Base(path) + name;
      KeyIsBelowStart(root, bucket, prefix, path, name);
    }
    if start.Some? {
      var d := FindDir(root, start.value).value;
      FoundPathIsProper(root, start.value);
      WalkIsExact(start.value, d);
      WalkIsProper(start.value, d);
      var steps := Walk(start.value, d);
      CollectedDistinct(steps, prefix);
      CollectedMembers(steps, prefix);
      forall k ensures k in Collected(steps, prefix) <==> prefix <= k && HasKey(root, k) {
        WalkHasKey(root, bucket, prefix, k);
      }
    }
  }

  lemma WalkHasKey(root: Dir, bucket: Path, prefix: string, k: string)
    requires WellFormed(root) && WalkStart(root, bucket, prefix).Some?
    ensures var start := WalkStart(root, bucket, prefix).value;
            k in Collected(Walk(start, FindDir(root, start).value), prefix) <==> prefix <= k && HasKey(root, k)
  {
    var start := WalkStart(root, bucket, prefix).value;
    var d := FindDir(root, start).value;
    FoundPathIsProper(root, start);
    WalkIsExact(start, d);
    var steps := Walk(start, d);
    CollectedMembers(steps, prefix);
    if k in Collected(steps, prefix) {
      var step :| step in steps && exists f :: f in step.1 && k == Base(step.0) + f;
      var f :| f in step.1 && k == Base(step.0) + f;
      assert step.0 == start + step.0[|start|..];
      FindThrough(root, start, step.0[|start|..]);
      assert FileAt(root, step.0, f);
    }
    if prefix <= k && HasKey(root, k) {
      var path, name :| FileAt(root, path, name) && k == Base(path) + name;
      KeyIsBelowStart(root, bucket, prefix, path, name);
      assert path == start + path[|start|..];
      FindThrough(root, start, path[|start|..]);
      var step := (path, FindDir(root, path).value.files);
      assert Visited(start, d, step);
    }
  }

  // --- The listing ------------------------------------------------------------------------------------------

  lemma {:induction false} DistinctCounts(s: seq<string>)
    ensures DistinctNames(s) <==> forall x :: multiset(s)[x] <= 1
  {
    if s != [] {
      var n := |s| - 1;
      assert s == s[..n] + [s[n]];
      DistinctCounts(s[..n]);
      if DistinctNames(s) {
        assert s[n] !in s[..n];
        assert multiset(s[..n])[s[n]] == 0;
      }
      if forall x :: multiset(s)[x] <= 1 {
        assert forall x :: multiset(s[..n])[x] <= multiset(s)[x];
        assert multiset(s[..n])[s[n]] == 0;
        assert s[n] !in s[..n];
      }
    }
  }

  lemma SortedKeys(keys: seq<string>)
    requires DistinctNames(keys)
    ensures StrictlySorted(Sort(Before, keys))
    ensures forall k :: k in Sort(Before, keys) <==> k in keys
  {
    var r := Sort(Before, keys);
    BeforeIsTotal();
    SortOrders(Before, keys);
    DistinctCounts(keys);
    DistinctCounts(r);
    forall k ensures k in r <==> k in keys {
      assert k in r <==> k in multiset(r);
      assert k in keys <==> k in multiset(keys);
    }
  }

  lemma KeysAreNotEmpty(root: Dir, key: string)
    requires WellFormed(root) && HasKey(root, key)
    ensures key != ""
  {
    var path, name :| FileAt(root, path, name) && key == Base(path) + name;
    FoundPathIsProper(root, path);
    assert IsComponent(name);
  }

  /** The keys of a bucket with a prefix are what a listing asks of its backend. */
  lemma KeysAreListable(root: Dir, prefix: string, delimiter: string, keys: seq<string>)
    requires WellFormed(root) && StrictlySorted(keys)
    requires forall k :: k in keys <==> prefix <= k && HasKey(root, k)
    ensures Listing.Listable(Listing.Request(prefix, delimiter), keys)
  {
    forall k | k in keys ensures k != "" {
      KeysAreNotEmpty(root, k);
    }
  }

  /** The keys of a bucket with a prefix, in order. */
  function KeysOf(root: Dir, bucket: Path, prefix: string): seq<string> {
    Sort(Before, CollectedFrom(root, WalkStart(root, bucket, prefix), prefix))
  }

  lemma SortedWalk(root: Dir, bucket: Path, prefix: string)
    requires WellFormed(root)
    ensures StrictlySorted(KeysOf(root, bucket, prefix))
    ensures forall k :: k in KeysOf(root, bucket, prefix) <==> prefix <= k && HasKey(root, k)
  {
    NarrowWalkIsExact(root, bucket, prefix);
    SortedKeys(CollectedFrom(root, WalkStart(root, bucket, prefix), prefix));
  }

  /** The bucket has the key, and it is listed under this entry. */
  ghost predicate ListedFrom(root: Dir, r: Listing.Request, pivot: string, key: string, e: Listing.Entry) {
    HasKey(root, key) && r.prefix <= key && Listing.ListedAfter(r, pivot, key) && Listing.EntryOf(r, key) == e
  }

  /** From a directory tree to followed pages: whatever the tree, the prefix, the delimiter and
      the pivot, a client that follows the tokens is shown the entry of every key of the bucket
      that starts with the prefix and comes after the pivot, exactly once, in order, and nothing
      else. */
  lemma TreeIsPaged(root: Dir, bucket: Path, r: Listing.Request, pivot: string, maxKeys: nat)
    requires WellFormed(root) && maxKeys >= 1
    ensures var keys := KeysOf(root, bucket, r.prefix);
            Listing.Listable(r, keys) &&
            var shown := Listing.Followed(r, pivot, keys, maxKeys);
            && StrictlySorted(Listing.Names(shown))
            && (forall k :: HasKey(root, k) && r.prefix <= k && Listing.ListedAfter(r, pivot, k) ==>
                  Listing.EntryOf(r, k) in shown)
            && (forall e :: e in shown ==> exists k :: ListedFrom(root, r, pivot, k, e))
  {
    var keys := KeysOf(root, bucket, r.prefix);
    SortedWalk(root, bucket, r.prefix);
    KeysAreListable(root, r.prefix, r.delimiter, keys);
    Listing.PagesAreTheListing(r, pivot, keys, maxKeys);
    Listing.ListingIsExact(r, pivot, keys);
    forall e | e in Listing.Entries(r, pivot, keys) ensures exists k :: ListedFrom(root, r, pivot, k, e) {
      var k :| k in keys && Listing.ListedAfter(r, pivot, k) && Listing.EntryOf(r, k) == e;
      assert ListedFrom(root, r, pivot, k, e);
    }
  }

  /** The keys of a bucket with a prefix, in order: what a listing is built from. */
  method ListKeys(root: Dir, bucket: Path, prefix: string) returns (r: seq<string>)
    requires WellFormed(root)
    ensures r == KeysOf(root, bucket, prefix)
    ensures StrictlySorted(r)
    ensures forall k :: k in r <==> prefix <= k && HasKey(root, k)
  {
    SortedWalk(root, bucket, prefix);
    var start := WalkStart(root, bucket, prefix);
    if start.None? {
      return [];
    }
    var steps := Walk(start.value, FindDir(root, start.value).value);
    var keys := CollectAll(steps, prefix);
    return Sort(Before, keys);
  }

  method CollectAll(steps: seq<(Path, seq<string>)>, prefix: string) returns (keys: seq<string>)
    ensures keys == Collected(steps, prefix)
  {
    keys := [];
    for k := 0 to |steps|
      invariant keys == Collected(steps[..k], prefix)
    {
      assert steps[..k + 1][..k] == steps[..k];
      keys := keys + Matching(Base(steps[k].0), steps[k].1, prefix);
    }
    assert steps[..|steps|] == steps;
  }
}
