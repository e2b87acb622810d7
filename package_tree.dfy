/**
  The package catalog and its parent -> child hierarchy.

  The catalog is the packages table, in the order the store returns its rows.
  A package may name a parent package; the upgrade path of a package leads
  from it to its ancestors. The order service walks the hierarchy downwards,
  breadth first, to find every descendant of an upgrade target.
*/
module PackageTree {
  import opened Wrappers

  type PackageId = int

  /** The usage configuration of a service. The store keeps it as JSON text;
      the order flow only touches its `used` counter, and `settings` stands
      for every other key, which it passes through unchanged. */
  datatype ServiceConfig = ServiceConfig(used: int, settings: string)

  datatype Service = Service(id: int, name: string, kind: string, config: ServiceConfig)

  datatype Package = Package(
    id: PackageId,
    name: string,
    price: int,
    duration: int,            // in months
    images: seq<string>,
    parentId: Option<PackageId>,
    services: seq<Service>)

  /** Package ids are the table's primary key. */
  predicate UniqueIds(cat: seq<Package>) {
    forall i, j :: 0 <= i < j < |cat| ==> cat[i].id != cat[j].id
  }

  /** The first package with the given id, if any (`findFirst` / `findUnique` by id). */
  function Find(cat: seq<Package>, id: PackageId): (r: Option<Package>)
    ensures r.Some? ==> r.value in cat && r.value.id == id
    ensures r.None? ==> forall p :: p in cat ==> p.id != id
  {
    if cat == [] then None
    else if cat[0].id == id then Some(cat[0])
    else Find(cat[1..], id)
  }

  /** Every parent reference points at a package of the catalog (a foreign key). */
  predicate ParentsExist(cat: seq<Package>) {
    forall p :: p in cat && p.parentId.Some? ==> Find(cat, p.parentId.value).Some?
  }

  /** The direct children of a package, in table order (`findMany({ where: { parentId } })`). */
  function Children(cat: seq<Package>, parent: PackageId): (r: seq<Package>)
    ensures forall c :: c in r <==> c in cat && c.parentId == Some(parent)
    ensures UniqueIds(cat) ==> UniqueIds(r)
  {
    if cat == [] then []
    else
      var rest := Children(cat[1..], parent);
      assert UniqueIds(cat) ==> UniqueIds(cat[1..]) by {
        if UniqueIds(cat) {
          forall i, j | 0 <= i < j < |cat[1..]| ensures cat[1..][i].id != cat[1..][j].id {
            assert cat[1..][i] == cat[i + 1] && cat[1..][j] == cat[j + 1];
          }
        }
      }
      if cat[0].parentId == Some(parent) then
        assert UniqueIds(cat) ==> forall c :: c in rest ==> c.id != cat[0].id by {
          if UniqueIds(cat) {
            forall c | c in rest ensures c.id != cat[0].id {
              var j :| 0 <= j < |cat[1..]| && cat[1..][j] == c;
              assert cat[j + 1] == c;
            }
          }
        }
        [cat[0]] + rest
      else
        rest
  }

  /** The ids of a list of packages (`children.map((child) => child.id)`). */
  function Ids(ps: seq<Package>): seq<PackageId> {
    seq(|ps|, i requires 0 <= i < |ps| => ps[i].id)
  }

  /** `n` copies of `e`. */
  function Repeat(n: nat, e: nat): (r: seq<nat>)
    ensures |r| == n && forall i :: 0 <= i < n ==> r[i] == e
  {
    if n == 0 then [] else Repeat(n - 1, e) + [e]
  }

  lemma IdsMembership(ps: seq<Package>, x: PackageId)
    ensures x in Ids(ps) <==> exists c :: c in ps && c.id == x
  {
    if x in Ids(ps) {
      var i :| 0 <= i < |ps| && Ids(ps)[i] == x;
      assert ps[i] in ps;
    }
    if exists c :: c in ps && c.id == x {
      var c :| c in ps && c.id == x;
      var i :| 0 <= i < |ps| && ps[i] == c;
      assert Ids(ps)[i] == x;
    }
  }

  /** The parent id of the package with id `id`; None for a root or an unknown id. */
  function ParentOf(cat: seq<Package>, id: PackageId): Option<PackageId> {
    match Find(cat, id)
    case None => None
    case Some(p) => p.parentId
  }

  /** The id reached from `id` by following `n` parent links, if the chain is that long. */
  function AncestorAt(cat: seq<Package>, id: PackageId, n: nat): Option<PackageId>
    decreases n
  {
    if n == 0 then Some(id)
    else
      match ParentOf(cat, id)
      case None => None
      case Some(q) => AncestorAt(cat, q, n - 1)
  }

  /** `d` is reached from `anc` by following child edges one or more times. */
  ghost predicate IsDescendant(cat: seq<Package>, anc: PackageId, d: PackageId) {
    exists n: nat :: 1 <= n && AncestorAt(cat, d, n) == Some(anc)
  }

  /** No package is its own strict ancestor: the parent relation is a forest. */
  ghost predicate Acyclic(cat: seq<Package>) {
    forall id: PackageId, n: nat :: 1 <= n ==> AncestorAt(cat, id, n) != Some(id)
  }

  ghost predicate WellFormed(cat: seq<Package>) {
    UniqueIds(cat) && ParentsExist(cat) && Acyclic(cat)
  }

  /** With unique ids, looking a package up by its own id finds it. */
  lemma {:induction false} FindMember(cat: seq<Package>, p: Package)
    requires UniqueIds(cat) && p in cat
    ensures Find(cat, p.id) == Some(p)
  {
    if cat[0] != p {
      var j :| 0 <= j < |cat| && cat[j] == p;
      assert j != 0;
      assert cat[0].id != p.id;
      assert cat[1..][j - 1] == p;
      assert UniqueIds(cat[1..]) by {
        forall i, k | 0 <= i < k < |cat[1..]| ensures cat[1..][i].id != cat[1..][k].id {
          assert cat[1..][i] == cat[i + 1] && cat[1..][k] == cat[k + 1];
        }
      }
      FindMember(cat[1..], p);
    }
  }

  /** A child of a package `d` links below `anc` is `d + 1` links below it. */
  lemma ChildStep(cat: seq<Package>, c: Package, d: nat, anc: PackageId)
    requires UniqueIds(cat) && c in cat && c.parentId.Some?
    requires AncestorAt(cat, c.parentId.value, d) == Some(anc)
    ensures AncestorAt(cat, c.id, d + 1) == Some(anc)
  {
    FindMember(cat, c);
  }

  /** A package `n >= 1` links below `anc` has, `n - 1` links up, a direct child of `anc`:
      the walk from `anc` reaches it through that child. */
  lemma {:induction false} AncestorHasChild(cat: seq<Package>, d: PackageId, n: nat, anc: PackageId)
    requires 1 <= n && AncestorAt(cat, d, n) == Some(anc)
    ensures exists c :: c in cat && c.parentId == Some(anc) && AncestorAt(cat, d, n - 1) == Some(c.id)
    decreases n
  {
    var p := Find(cat, d).value;
    var q := p.parentId.value;
    if n == 1 {
      assert p in cat && p.parentId == Some(anc) && AncestorAt(cat, d, 0) == Some(p.id);
    } else {
      AncestorHasChild(cat, q, n - 1, anc);
      var c :| c in cat && c.parentId == Some(anc) && AncestorAt(cat, q, n - 2) == Some(c.id);
      assert AncestorAt(cat, d, n - 1) == AncestorAt(cat, q, n - 2);
    }
  }

  /** A leaf package has no descendants, so nothing can be upgraded to it. */
  lemma LeafHasNoDescendants(cat: seq<Package>, t: PackageId)
    requires Children(cat, t) == []
    ensures forall d :: !IsDescendant(cat, t, d)
  {
    forall d ensures !IsDescendant(cat, t, d) {
      if IsDescendant(cat, t, d) {
        var n: nat :| 1 <= n && AncestorAt(cat, d, n) == Some(t);
        AncestorHasChild(cat, d, n, t);
        assert false;
      }
    }
  }

  /** An id missing from the catalog has no descendants when parent references are foreign keys. */
  lemma MissingPackageHasNoDescendants(cat: seq<Package>, t: PackageId)
    requires ParentsExist(cat) && Find(cat, t).None?
    ensures forall d :: !IsDescendant(cat, t, d)
  {
    forall d ensures !IsDescendant(cat, t, d) {
      if IsDescendant(cat, t, d) {
        var n: nat :| 1 <= n && AncestorAt(cat, d, n) == Some(t);
        AncestorHasChild(cat, d, n, t);
        assert false;
      }
    }
  }

  /** A descendant always names an existing package, and so does its ancestor when parents are foreign keys. */
  lemma DescendantsExist(cat: seq<Package>, anc: PackageId, d: PackageId)
    requires ParentsExist(cat) && IsDescendant(cat, anc, d)
    ensures Find(cat, d).Some? && Find(cat, anc).Some?
  {
    var n: nat :| 1 <= n && AncestorAt(cat, d, n) == Some(anc);
    assert ParentOf(cat, d).Some?;
    if Find(cat, anc).None? {
      MissingPackageHasNoDescendants(cat, anc);
    }
  }

  /** Following `m` and then `n` parent links is following `m + n` of them. */
  lemma {:induction false} AncestorAtAdd(cat: seq<Package>, x: PackageId, m: nat, n: nat)
    requires AncestorAt(cat, x, m).Some?
    ensures AncestorAt(cat, x, m + n) == AncestorAt(cat, AncestorAt(cat, x, m).value, n)
    decreases m
  {
    if m > 0 {
      AncestorAtAdd(cat, ParentOf(cat, x).value, m - 1, n);
    }
  }

  /** Descendants of descendants are descendants. */
  lemma DescendantTransitive(cat: seq<Package>, a: PackageId, b: PackageId, c: PackageId)
    requires IsDescendant(cat, a, b) && IsDescendant(cat, b, c)
    ensures IsDescendant(cat, a, c)
  {
    var m: nat :| 1 <= m && AncestorAt(cat, b, m) == Some(a);
    var n: nat :| 1 <= n && AncestorAt(cat, c, n) == Some(b);
    AncestorAtAdd(cat, c, n, m);
    assert AncestorAt(cat, c, n + m) == Some(a);
  }

  /** In a forest, an upgrade never leads back down: descendance is antisymmetric. */
  lemma DescendantAntisymmetric(cat: seq<Package>, a: PackageId, b: PackageId)
    requires Acyclic(cat) && IsDescendant(cat, a, b)
    ensures !IsDescendant(cat, b, a)
  {
    if IsDescendant(cat, b, a) {
      DescendantTransitive(cat, a, b, a);
      assert false;
    }
  }

  /** The packages a given package may be upgraded to form a chain: any two are comparable. */
  lemma AncestorsFormChain(cat: seq<Package>, d: PackageId, a: PackageId, b: PackageId)
    requires IsDescendant(cat, a, d) && IsDescendant(cat, b, d)
    ensures a == b || IsDescendant(cat, a, b) || IsDescendant(cat, b, a)
  {
    var m: nat :| 1 <= m && AncestorAt(cat, d, m) == Some(a);
    var n: nat :| 1 <= n && AncestorAt(cat, d, n) == Some(b);
    if m < n {
      AncestorAtAdd(cat, d, m, n - m);
      assert AncestorAt(cat, a, n - m) == Some(b);
    } else if n < m {
      AncestorAtAdd(cat, d, n, m - n);
      assert AncestorAt(cat, b, m - n) == Some(a);
    }
  }

  /** A duplicate-free sequence drawn from `t` is no longer than `t`. */
  lemma {:induction false} DistinctBound<T>(s: seq<T>, t: seq<T>)
    requires forall i, j :: 0 <= i < j < |s| ==> s[i] != s[j]
    requires forall x :: x in s ==> x in t
    ensures |s| <= |t|
  {
    if s != [] {
      assert s[0] in t;
      var k :| 0 <= k < |t| && t[k] == s[0];
      var rest := t[..k] + t[k + 1..];
      forall y | y in s[1..] ensures y in rest {
        var j :| 1 <= j < |s| && s[j] == y;
        assert y in t;
        var m :| 0 <= m < |t| && t[m] == y;
        assert m != k;
        if m < k { assert rest[m] == y; } else { assert rest[m - 1] == y; }
      }
      DistinctBound(s[1..], rest);
    }
  }

  /** Once every package below `p` and below each found package is found, every descendant is found. */
  lemma {:induction false} ReachedAll(cat: seq<Package>, p: PackageId, found: seq<Package>, d: PackageId, n: nat)
    requires UniqueIds(cat)
    requires forall c :: c in cat && c.parentId == Some(p) ==> c in found
    requires forall c, e :: e in found && c in cat && c.parentId == Some(e.id) ==> c in found
    requires 1 <= n && AncestorAt(cat, d, n) == Some(p)
    ensures Find(cat, d).Some? && Find(cat, d).value in found
    decreases n
  {
    var pd := Find(cat, d).value;
    var q := pd.parentId.value;
    if n > 1 {
      ReachedAll(cat, p, found, q, n - 1);
      var e := Find(cat, q).value;
      assert pd.parentId == Some(e.id);
    }
  }

  /*
    The state of the breadth-first walk from `p`, in ghost terms:
      `seen`  every id ever enqueued: `p`, then the ids of `found` in order;
      `depth` how many parent links separate seen[k] from `p`;
      `via`   found[k] was found as a child of seen[via[k]];
      `head`  how many ids have been dequeued.
  */
  ghost predicate WalkShape(p: PackageId, found: seq<Package>, seen: seq<PackageId>, depth: seq<nat>, via: seq<nat>) {
    && |seen| == |found| + 1 && seen[0] == p
    && (forall k :: 0 <= k < |found| ==> seen[k + 1] == found[k].id)
    && |depth| == |seen| && depth[0] == 0
    && |via| == |found|
  }

  ghost predicate NoRepeats(seen: seq<PackageId>) {
    forall i, j :: 0 <= i < j < |seen| ==> seen[i] != seen[j]
  }

  ghost predicate DepthsHold(cat: seq<Package>, p: PackageId, seen: seq<PackageId>, depth: seq<nat>)
    requires |depth| == |seen|
  {
    && (forall k :: 0 <= k < |seen| ==> AncestorAt(cat, seen[k], depth[k]) == Some(p))
    && (forall k :: 1 <= k < |seen| ==> depth[k] >= 1)
  }

  ghost predicate FoundVia(cat: seq<Package>, found: seq<Package>, seen: seq<PackageId>, via: seq<nat>, head: nat)
    requires |via| == |found| && head <= |seen|
  {
    forall k :: 0 <= k < |found| ==>
      found[k] in cat && via[k] < head && via[k] <= k && found[k].parentId == Some(seen[via[k]])
  }

  ghost predicate ChildrenFound(cat: seq<Package>, found: seq<Package>, seen: seq<PackageId>, head: nat)
    requires head <= |seen|
  {
    forall i, c :: 0 <= i < head && c in cat && c.parentId == Some(seen[i]) ==> c in found
  }

  ghost predicate Walk(cat: seq<Package>, p: PackageId, found: seq<Package>, seen: seq<PackageId>, depth: seq<nat>, via: seq<nat>, head: nat) {
    && WalkShape(p, found, seen, depth, via)
    && head <= |seen|
    && NoRepeats(seen)
    && DepthsHold(cat, p, seen, depth)
    && FoundVia(cat, found, seen, via, head)
    && ChildrenFound(cat, found, seen, head)
  }

  /** The children of the next dequeued id are new: none of them was enqueued before. */
  lemma ChildrenAreNew(cat: seq<Package>, p: PackageId, found: seq<Package>, seen: seq<PackageId>, depth: seq<nat>, via: seq<nat>, head: nat)
    requires UniqueIds(cat) && Acyclic(cat)
    requires Walk(cat, p, found, seen, depth, via, head) && head < |seen|
    ensures forall c :: c in Children(cat, seen[head]) ==> c.id !in seen
  {
    forall e | e in found ensures Find(cat, e.id) == Some(e) {
      FindMember(cat, e);
    }
    forall c | c in Children(cat, seen[head]) ensures c.id !in seen {
      ChildStep(cat, c, depth[head], p);
      FindMember(cat, c);
      assert seen[0] != c.id;
      forall k | 1 <= k < |seen| ensures seen[k] != c.id {
        var e := found[k - 1];
        assert seen[k] == e.id && Find(cat, e.id) == Some(e);
        assert e.parentId == Some(seen[via[k - 1]]) && via[k - 1] < head;
      }
    }
  }

  lemma StepNoRepeats(seen: seq<PackageId>, ch: seq<Package>)
    requires NoRepeats(seen) && UniqueIds(ch)
    requires forall c :: c in ch ==> c.id !in seen
    ensures NoRepeats(seen + Ids(ch))
  {
    var seen' := seen + Ids(ch);
    forall i, j | 0 <= i < j < |seen'| ensures seen'[i] != seen'[j] {
      if j >= |seen| {
        var c := ch[j - |seen|];
        assert seen'[j] == c.id;
        if i >= |seen| {
          assert seen'[i] == ch[i - |seen|].id;
        } else {
          assert seen'[i] == seen[i];
        }
      }
    }
  }

  /** Every child of a package `d` levels below `anc` is `d + 1` levels below it. */
  lemma ChildrenOneLevelDown(cat: seq<Package>, parent: PackageId, d: nat, anc: PackageId)
    requires UniqueIds(cat) && AncestorAt(cat, parent, d) == Some(anc)
    ensures var ch := Children(cat, parent);
      forall i :: 0 <= i < |ch| ==> AncestorAt(cat, Ids(ch)[i], d + 1) == Some(anc)
  {
    var ch := Children(cat, parent);
    forall i | 0 <= i < |ch| ensures AncestorAt(cat, Ids(ch)[i], d + 1) == Some(anc) {
      assert ch[i] in ch;
      ChildStep(cat, ch[i], d, anc);
    }
  }

  /** Appending ids, all `e >= 1` levels below `p`, keeps the depth invariant. */
  lemma DepthsAppend(cat: seq<Package>, p: PackageId, seen: seq<PackageId>, depth: seq<nat>,
                     ids: seq<PackageId>, e: nat)
    requires |depth| == |seen| && DepthsHold(cat, p, seen, depth) && e >= 1
    requires forall i :: 0 <= i < |ids| ==> AncestorAt(cat, ids[i], e) == Some(p)
    ensures DepthsHold(cat, p, seen + ids, depth + Repeat(|ids|, e))
  {
    var seen', depth' := seen + ids, depth + Repeat(|ids|, e);
    forall k | 0 <= k < |seen'|
      ensures AncestorAt(cat, seen'[k], depth'[k]) == Some(p) && (k >= 1 ==> depth'[k] >= 1)
    {
      if k < |seen| {
        assert seen'[k] == seen[k] && depth'[k] == depth[k];
      } else {
        assert seen'[k] == ids[k - |seen|] && depth'[k] == e;
      }
    }
  }

  lemma StepDepths(cat: seq<Package>, p: PackageId, seen: seq<PackageId>, depth: seq<nat>, head: nat)
    requires UniqueIds(cat) && |depth| == |seen| && head < |seen| && DepthsHold(cat, p, seen, depth)
    ensures var ch := Children(cat, seen[head]);
      DepthsHold(cat, p, seen + Ids(ch), depth + Repeat(|ch|, depth[head] + 1))
  {
    var ch := Children(cat, seen[head]);
    assert |Ids(ch)| == |ch|;
    ChildrenOneLevelDown(cat, seen[head], depth[head], p);
    DepthsAppend(cat, p, seen, depth, Ids(ch), depth[head] + 1);
  }

  lemma StepVia(cat: seq<Package>, found: seq<Package>, seen: seq<PackageId>, via: seq<nat>, head: nat)
    requires |via| == |found| && |seen| == |found| + 1 && head < |seen| && FoundVia(cat, found, seen, via, head)
    ensures var ch := Children(cat, seen[head]);
      FoundVia(cat, found + ch, seen + Ids(ch), via + Repeat(|ch|, head), head + 1)
  {
    var ch := Children(cat, seen[head]);
    var found', seen', via' := found + ch, seen + Ids(ch), via + Repeat(|ch|, head);
    forall k | 0 <= k < |found'|
      ensures found'[k] in cat && via'[k] < head + 1 && via'[k] <= k && found'[k].parentId == Some(seen'[via'[k]])
    {
      if k >= |found| {
        assert found'[k] == ch[k - |found|] && ch[k - |found|] in ch;
      } else {
        assert found'[k] == found[k] && via'[k] == via[k];
      }
    }
  }

  lemma StepChildrenFound(cat: seq<Package>, found: seq<Package>, seen: seq<PackageId>, head: nat)
    requires head < |seen| && ChildrenFound(cat, found, seen, head)
    ensures var ch := Children(cat, seen[head]);
      ChildrenFound(cat, found + ch, seen + Ids(ch), head + 1)
  {
    var ch := Children(cat, seen[head]);
    var found', seen' := found + ch, seen + Ids(ch);
    forall i, c | 0 <= i < head + 1 && c in cat && c.parentId == Some(seen'[i]) ensures c in found' {
      assert seen'[i] == seen[i];
      if i == head {
        assert c in ch;
      }
    }
  }

  /** Dequeuing one id and enqueuing its children keeps the walk's invariant. */
  lemma WalkStep(cat: seq<Package>, p: PackageId, found: seq<Package>, seen: seq<PackageId>, depth: seq<nat>, via: seq<nat>, head: nat)
    requires UniqueIds(cat) && Acyclic(cat)
    requires Walk(cat, p, found, seen, depth, via, head) && head < |seen|
    ensures var ch := Children(cat, seen[head]);
      Walk(cat, p, found + ch, seen + Ids(ch), depth + Repeat(|ch|, depth[head] + 1), via + Repeat(|ch|, head), head + 1)
  {
    var ch := Children(cat, seen[head]);
    ChildrenAreNew(cat, p, found, seen, depth, via, head);
    StepNoRepeats(seen, ch);
    StepDepths(cat, p, seen, depth, head);
    StepVia(cat, found, seen, via, head);
    StepChildrenFound(cat, found, seen, head);
    var found', seen' := found + ch, seen + Ids(ch);
    assert forall k :: 0 <= k < |found'| ==> seen'[k + 1] == found'[k].id by {
      forall k | 0 <= k < |found'| ensures seen'[k + 1] == found'[k].id {
        if k >= |found| {
          assert found'[k] == ch[k - |found|];
        } else {
          assert found'[k] == found[k];
        }
      }
    }
  }

  /** At the end of the walk every package found is a descendant and every descendant is found. */
  lemma WalkDone(cat: seq<Package>, p: PackageId, found: seq<Package>, seen: seq<PackageId>, depth: seq<nat>, via: seq<nat>)
    requires UniqueIds(cat)
    requires Walk(cat, p, found, seen, depth, via, |seen|)
    ensures forall c :: c in found <==> c in cat && IsDescendant(cat, p, c.id)
    ensures forall c :: c in found ==> c.id != p
    ensures forall i :: 0 <= i < |found| ==>
      found[i].parentId == Some(p) || exists j :: 0 <= j < i && found[i].parentId == Some(found[j].id)
  {
    forall c | c in cat && IsDescendant(cat, p, c.id) ensures c in found {
      var n: nat :| 1 <= n && AncestorAt(cat, c.id, n) == Some(p);
      forall x, e | e in found && x in cat && x.parentId == Some(e.id) ensures x in found {
        var k :| 0 <= k < |found| && found[k] == e;
        assert seen[k + 1] == e.id;
      }
      ReachedAll(cat, p, found, c.id, n);
      FindMember(cat, c);
    }
    forall c | c in found ensures IsDescendant(cat, p, c.id) && c.id != p {
      var k :| 0 <= k < |found| && found[k] == c;
      assert seen[k + 1] == c.id;
      assert AncestorAt(cat, c.id, depth[k + 1]) == Some(p);
    }
    forall i | 0 <= i < |found|
      ensures found[i].parentId == Some(p) || exists j :: 0 <= j < i && found[i].parentId == Some(found[j].id)
    {
      if via[i] != 0 {
        assert found[i].parentId == Some(found[via[i] - 1].id);
      }
    }
  }

  /** No package is found twice, so the walk finds at most as many packages as the catalog holds. */
  lemma WalkBounded(cat: seq<Package>, p: PackageId, found: seq<Package>, seen: seq<PackageId>, depth: seq<nat>, via: seq<nat>, head: nat)
    requires Walk(cat, p, found, seen, depth, via, head)
    ensures UniqueIds(found) && |found| <= |cat|
  {
    forall i, j | 0 <= i < j < |found| ensures found[i].id != found[j].id {
      assert seen[i + 1] != seen[j + 1];
    }
    DistinctBound(found, cat);
  }

  /**
    The descendants of `parentId`, found breadth first with an explicit queue
    of ids: dequeue an id, append its children to the result and their ids to
    the queue, until the queue is empty. Termination rests on the forest
    having no cycle.
  */
  method AllChildren(cat: seq<Package>, parentId: PackageId) returns (result: seq<Package>)
    requires UniqueIds(cat) && Acyclic(cat)
    ensures forall c :: c in result <==> c in cat && IsDescendant(cat, parentId, c.id)
    ensures forall c :: c in result ==> c.id != parentId
    ensures UniqueIds(result)
    ensures forall i :: 0 <= i < |result| ==>
      result[i].parentId == Some(parentId) ||
      exists j :: 0 <= j < i && result[i].parentId == Some(result[j].id)
  {
    result := [];
    var queue := [parentId];
    ghost var seen := [parentId];
    ghost var depth: seq<nat> := [0];
    ghost var via: seq<nat> := [];
    ghost var head := 0;
    while |queue| > 0
      invariant Walk(cat, parentId, result, seen, depth, via, head)
      invariant queue == seen[head..]
      invariant |result| <= |cat|
      decreases |cat| + 1 - head
    {
      var current := queue[0];
      queue := queue[1..];
      var children := Children(cat, current);
      WalkStep(cat, parentId, result, seen, depth, via, head);
      result := result + children;
      queue := queue + Ids(children);
      seen := seen + Ids(children);
      depth := depth + Repeat(|children|, depth[head] + 1);
      via := via + Repeat(|children|, head);
      head := head + 1;
      WalkBounded(cat, parentId, result, seen, depth, via, head);
    }
    WalkDone(cat, parentId, result, seen, depth, via);
    WalkBounded(cat, parentId, result, seen, depth, via, head);
  }
}
