/**
 * The holder of the data of the instances (core/instance/data.go): two indexes, each the converse of the other, and
 * a flat map by the joined text of a path and a node, against one map from path and node to value.
 */
module InstanceData {
  import opened Text
  import opened Naming
  import opened Maps

  /** An instance: an object on a node. */
  type Instance = (Path, string)

  function InstanceString(p: Path, node: string): string {
    Str(p) + "@" + node
  }

  function Joined(i: Instance): string {
    InstanceString(i.0, i.1)
  }

  /** A row of an index: no entry reads as an empty one. */
  function Row<K, V>(index: map<K, set<V>>, k: K): set<V> {
    if k in index then index[k] else {}
  }

  /** The two indexes in one set, and the flat map. */
  datatype Holder<T> = Holder(held: set<Instance>, data: map<string, Option<T>>)

  /** The value of an instance; a value may be nil, and a missing one reads as nil. */
  function Read<T>(data: map<string, Option<T>>, p: Path, node: string): Option<T> {
    var s := InstanceString(p, node);
    if s in data then data[s] else None
  }

  datatype Call<T> = Set(p: Path, node: string, v: Option<T>) | Unset(p: Path, node: string) | DropNode(node: string)

  function JoinedAll(s: set<Instance>): set<string> {
    set i | i in s :: Joined(i)
  }

  ghost function Drop<T>(h: Holder<T>, gone: set<Instance>): Holder<T> {
    Holder(h.held - gone, h.data - JoinedAll(gone))
  }

  ghost function OnNode(held: set<Instance>, node: string): set<Instance> {
    set i | i in held && i.1 == node
  }

  ghost function Apply<T>(h: Holder<T>, c: Call<T>): Holder<T> {
    match c
    case Set(p, node, v) => Holder(h.held + {(p, node)}, h.data[InstanceString(p, node) := v])
    case Unset(p, node) => Drop(h, {(p, node)})
    case DropNode(node) => Drop(h, OnNode(h.held, node))
  }

  datatype Element<T> = Element(p: Path, node: string, value: Option<T>)

  // ---------------------------------------------------------------- the two indexes

  /** Both indexes hold these instances, no more. */
  ghost predicate Index(byNode: map<string, set<Path>>, byPath: map<Path, set<string>>, held: set<Instance>) {
    && (forall i: Instance :: i in held <==> i.0 in Row(byNode, i.1))
    && (forall i: Instance :: i in held <==> i.1 in Row(byPath, i.0))
  }

  /** The row of `k` has one value less, the others are the same. */
  ghost predicate RowLoses<K(!new), V>(index: map<K, set<V>>, after: map<K, set<V>>, k: K, v: V) {
    forall j :: Row(after, j) == if j == k then Row(index, j) - {v} else Row(index, j)
  }

  /** The index with one value less in the row of `k`, and no row once it is empty. */
  function Lost<K, V>(index: map<K, set<V>>, k: K, v: V): map<K, set<V>> {
    if k !in index then index
    else if index[k] - {v} == {} then index - {k}
    else index[k := index[k] - {v}]
  }

  lemma LostLoses<K(!new), V>(index: map<K, set<V>>, k: K, v: V)
    ensures RowLoses(index, Lost(index, k, v), k, v)
  {
  }

  /** The index with one value more in the row of `k`, made when there is none. */
  lemma Gained<K, V>(index: map<K, set<V>>, k: K, v: V)
    ensures k !in index ==> index[k := {}][k := {} + {v}] == index[k := Row(index, k) + {v}]
  {
  }

  lemma AddKeepsIndex(byNode: map<string, set<Path>>, byPath: map<Path, set<string>>, held: set<Instance>, p: Path,
                      node: string)
    requires Index(byNode, byPath, held)
    ensures Index(byNode[node := Row(byNode, node) + {p}], byPath[p := Row(byPath, p) + {node}], held + {(p, node)})
  {
    forall i: Instance ensures i in held <==> i.0 in Row(byNode, i.1) && i.1 in Row(byPath, i.0) {
    }
  }

  lemma RemoveKeepsIndex(byNode: map<string, set<Path>>, byPath: map<Path, set<string>>, held: set<Instance>,
                         node: string, p: Path, byNodeAfter: map<string, set<Path>>,
                             byPathAfter: map<Path, set<string>>)
    requires Index(byNode, byPath, held)
    requires RowLoses(byNode, byNodeAfter, node, p) && RowLoses(byPath, byPathAfter, p, node)
    ensures Index(byNodeAfter, byPathAfter, held - {(p, node)})
  {
  }

  /** The rows of the node gone, and the node out of the row of every path. */
  lemma DropKeepsIndex(byNode: map<string, set<Path>>, byPath: map<Path, set<string>>, held: set<Instance>,
                       node: string, byPathAfter: map<Path, set<string>>)
    requires Index(byNode, byPath, held)
    requires RowsLose(byPath, byPathAfter, Row(byNode, node), node)
    ensures Index(byNode - {node}, byPathAfter, held - OnNode(held, node))
  {
    forall i: Instance ensures i in held - OnNode(held, node) <==> i.1 in Row(byPathAfter, i.0) {
      assert (i.0, node) in held <==> i.0 in Row(byNode, node);
    }
  }

  /** The node is out of the rows of these paths, the other rows are the same. */
  ghost predicate RowsLose(byPath: map<Path, set<string>>, after: map<Path, set<string>>, paths: set<Path>,
                           node: string) {
    && after.Keys == byPath.Keys
    && forall p :: Row(after, p) == Without(Row(byPath, p), p in paths, node)
  }

  /** The node deleted from the row of the path, if it has one. */
  function Minus(byPath: map<Path, set<string>>, p: Path, node: string): map<Path, set<string>> {
    if p in byPath then byPath[p := byPath[p] - {node}] else byPath
  }

  lemma RowsLoseOneMore(byPath: map<Path, set<string>>, after: map<Path, set<string>>, paths: set<Path>, node: string,
                        p: Path)
    requires RowsLose(byPath, after, paths, node)
    ensures RowsLose(byPath, Minus(after, p, node), paths + {p}, node)
  {
  }

  function Without<V>(s: set<V>, gone: bool, v: V): set<V> {
    if gone then s - {v} else s
  }

  function JoinedOn(paths: set<Path>, node: string): set<string> {
    set p | p in paths :: InstanceString(p, node)
  }

  lemma JoinedOne(i: Instance)
    ensures JoinedAll({i}) == {Joined(i)}
  {
    assert i in {i};
  }

  lemma JoinedOneMore(paths: set<Path>, p: Path, node: string)
    ensures JoinedOn(paths + {p}, node) == JoinedOn(paths, node) + {InstanceString(p, node)}
  {
  }

  lemma JoinedOnNode(byNode: map<string, set<Path>>, byPath: map<Path, set<string>>, held: set<Instance>, node: string)
    requires Index(byNode, byPath, held)
    ensures JoinedAll(OnNode(held, node)) == JoinedOn(Row(byNode, node), node)
  {
    forall s | s in JoinedOn(Row(byNode, node), node) ensures s in JoinedAll(OnNode(held, node)) {
      var p :| p in Row(byNode, node) && s == InstanceString(p, node);
      assert (p, node) in held && Joined((p, node)) == s;
    }
  }

  /** The node is out of the rows of these paths, and their data out of the flat map. */
  ghost predicate Dropping<T>(byPath: map<Path, set<string>>, byPathNow: map<Path, set<string>>,
                              data: map<string, Option<T>>, dataNow: map<string, Option<T>>, paths: set<Path>,
                                  node: string) {
    RowsLose(byPath, byPathNow, paths, node) && dataNow == data - JoinedOn(paths, node)
  }

  lemma DroppingOneMore<T>(byPath: map<Path, set<string>>, byPathNow: map<Path, set<string>>,
                           data: map<string, Option<T>>, dataNow: map<string, Option<T>>, paths: set<Path>,
                               node: string, p: Path)
    requires Dropping(byPath, byPathNow, data, dataNow, paths, node)
    ensures Dropping(byPath, Minus(byPathNow, p, node), data, dataNow - {InstanceString(p, node)}, paths + {p}, node)
  {
    RowsLoseOneMore(byPath, byPathNow, paths, node, p);
    TakeOneMore(data, JoinedOn(paths, node), InstanceString(p, node));
    JoinedOneMore(paths, p, node);
  }

  /** The flat map is the same but for these texts. */
  ghost predicate SameButFor<T>(gone: set<string>, before: map<string, Option<T>>, after: map<string, Option<T>>) {
    forall s :: s !in gone ==> (s in after <==> s in before) && (s in before ==> after[s] == before[s])
  }

  class Data<T> {
    var nodeToPath: map<string, set<Path>>
    var pathToNode: map<Path, set<string>>
    var data: map<string, Option<T>>
    /** The instances both indexes hold. */
    ghost var held: set<Instance>

    /** The indexes are converses of each other, and no node is kept without a path. */
    ghost predicate Valid()
      reads this
    {
      && Index(nodeToPath, pathToNode, held)
      && forall node :: node in nodeToPath ==> nodeToPath[node] != {}
    }

    ghost function View(): Holder<T>
      reads this
    {
      Holder(held, data)
    }

    constructor ()
      ensures Valid() && View() == Holder({}, map[])
    {
      nodeToPath, pathToNode, data, held := map[], map[], map[], {};
    }

    method Set(p: Path, node: string, v: Option<T>)
      requires Valid()
      modifies this
      ensures Valid() && View() == Apply(old(View()), Call.Set(p, node, v))
      ensures held == old(held) + {(p, node)} && Read(data, p, node) == v
      ensures SameButFor({InstanceString(p, node)}, old(data), data)
    {
      AddKeepsIndex(nodeToPath, pathToNode, held, p, node);
      Gained(nodeToPath, node, p);
      Gained(pathToNode, p, node);
      if node !in nodeToPath {
        nodeToPath := nodeToPath[node := {}];
      }
      if p !in pathToNode {
        pathToNode := pathToNode[p := {}];
      }
      nodeToPath := nodeToPath[node := nodeToPath[node] + {p}];
      pathToNode := pathToNode[p := pathToNode[p] + {node}];
      data := data[InstanceString(p, node) := v];
      held := held + {(p, node)};
      assert nodeToPath == old(nodeToPath[node := Row(nodeToPath, node) + {p}]);
      assert pathToNode == old(pathToNode[p := Row(pathToNode, p) + {node}]);
    }

    method Unset(p: Path, node: string)
      requires Valid()
      modifies this
      ensures Valid() && View() == Apply(old(View()), Call.Unset(p, node))
      ensures held == old(held) - {(p, node)} && Read(data, p, node) == None
      ensures SameButFor({InstanceString(p, node)}, old(data), data)
    {
      if node in nodeToPath {
        nodeToPath := nodeToPath[node := nodeToPath[node] - {p}];
        if nodeToPath[node] == {} {
          nodeToPath := nodeToPath - {node};
        }
      }
      if p in pathToNode {
        pathToNode := pathToNode[p := pathToNode[p] - {node}];
        if pathToNode[p] == {} {
          pathToNode := pathToNode - {p};
        }
      }
      data := data - {InstanceString(p, node)};
      assert nodeToPath == old(Lost(nodeToPath, node, p)) && pathToNode == old(Lost(pathToNode, p, node));
      LostLoses(old(nodeToPath), node, p);
      LostLoses(old(pathToNode), p, node);
      JoinedOne((p, node));
      RemoveKeepsIndex(old(nodeToPath), old(pathToNode), held, node, p, nodeToPath, pathToNode);
      held := held - {(p, node)};
    }

    /** The loop of DropNode: the node out of the rows of these paths, one after the other, and their data dropped. */
    method Forget(paths: set<Path>, node: string)
      modifies this`pathToNode, this`data
      ensures Dropping(old(pathToNode), pathToNode, old(data), data, paths, node)
    {
      var todo := paths;
      ghost var byPath, before, done := pathToNode, data, {};
      while todo != {}
        invariant done + todo == paths
        invariant Dropping(byPath, pathToNode, before, data, done, node)
        decreases |todo|
      {
        var p :| p in todo;
        DroppingOneMore(byPath, pathToNode, before, data, done, node, p);
        pathToNode := Minus(pathToNode, p, node);
        data := data - {InstanceString(p, node)};
        todo := todo - {p};
        done := done + {p};
      }
      assert done == paths;
    }

    /** A path left without a node keeps its row. */
    method DropNode(node: string)
      requires Valid()
      modifies this
      ensures Valid() && View() == Apply(old(View()), Call.DropNode(node))
      ensures forall i :: i in held <==> i in old(held) && i.1 != node
      ensures forall p :: (p, node) in old(held) ==> Read(data, p, node) == None
      ensures SameButFor(JoinedAll(OnNode(old(held), node)), old(data), data)
      ensures pathToNode.Keys == old(pathToNode.Keys)
    {
      Forget(Row(nodeToPath, node), node);
      DropKeepsIndex(nodeToPath, old(pathToNode), held, node, pathToNode);
      JoinedOnNode(nodeToPath, old(pathToNode), held, node);
      nodeToPath := nodeToPath - {node};
      held := held - OnNode(held, node);
      forall p | (p, node) in old(held) ensures Read(data, p, node) == None {
        assert Joined((p, node)) in JoinedAll(OnNode(old(held), node));
      }
    }

    /** What the one map the holder agrees with holds of the instance, nil when it holds nothing of it. */
    method GetByPathAndNode(p: Path, node: string) returns (v: Option<T>)
      ensures v == Read(data, p, node)
      ensures forall m: Simple<T>, among :: Agrees(View(), m, among) && (p, node) in among ==> v == Get(m, (p, node))
    {
      var s := InstanceString(p, node);
      return if s in data then data[s] else None;
    }

    method GetByNode(node: string) returns (r: map<Path, Option<T>>)
      requires Valid()
      ensures forall p :: p in r <==> (p, node) in held
      ensures forall p :: p in r ==> r[p] == Read(data, p, node)
    {
      r := map[];
      var all := Row(nodeToPath, node);
      var todo := all;
      while todo != {}
        invariant todo <= all && r.Keys == all - todo
        invariant forall p :: p in r ==> r[p] == Read(data, p, node)
        decreases |todo|
      {
        var p :| p in todo;
        r := r[p := Read(data, p, node)];
        todo := todo - {p};
      }
    }

    method GetPathsByNode(node: string) returns (r: seq<Path>)
      requires Valid()
      ensures forall p :: p in r <==> (p, node) in held
      ensures forall i, j :: 0 <= i < j < |r| ==> r[i] != r[j]
    {
      r := [];
      var all := Row(nodeToPath, node);
      var todo := all;
      while todo != {}
        invariant todo <= all && forall p :: p in r <==> p in all - todo
        invariant forall i, j :: 0 <= i < j < |r| ==> r[i] != r[j]
        decreases |todo|
      {
        var p :| p in todo;
        assert forall i :: 0 <= i < |r| ==> r[i] in r;
        r := r + [p];
        todo := todo - {p};
      }
    }

    method GetByPath(p: Path) returns (r: map<string, Option<T>>)
      requires Valid()
      ensures forall node :: node in r <==> (p, node) in held
      ensures forall node :: node in r ==> r[node] == Read(data, p, node)
    {
      r := map[];
      var all := Row(pathToNode, p);
      var todo := all;
      while todo != {}
        invariant todo <= all && r.Keys == all - todo
        invariant forall node :: node in r ==> r[node] == Read(data, p, node)
        decreases |todo|
      {
        var node :| node in todo;
        r := r[node := Read(data, p, node)];
        todo := todo - {node};
      }
    }

    /** Every instance held, once, with its value. */
    method GetAll() returns (r: seq<Element<T>>)
      requires Valid()
      ensures forall p, node :: (p, node) in held <==> Element(p, node, Read(data, p, node)) in r
      ensures forall k :: 0 <= k < |r| ==> r[k].value == Read(data, r[k].p, r[k].node)
      ensures forall i, j :: 0 <= i < j < |r| ==> (r[i].p, r[i].node) != (r[j].p, r[j].node)
    {
      r := [];
      ghost var seen: set<Instance> := {};
      var nodes := nodeToPath.Keys;
      while nodes != {}
        invariant nodes <= nodeToPath.Keys
        invariant forall p, node :: (p, node) in seen <==> node !in nodes && p in Row(nodeToPath, node)
        invariant Lists(r, seen, data)
        decreases |nodes|
      {
        var node :| node in nodes;
        var todo := nodeToPath[node];
        ghost var before := seen;
        while todo != {}
          invariant todo <= nodeToPath[node]
          invariant forall p, n :: (p, n) in seen <==> (p, n) in before || (n == node && p in nodeToPath[node] - todo)
          invariant Lists(r, seen, data)
          decreases |todo|
        {
          var p :| p in todo;
          ListsOneMore(r, seen, data, (p, node));
          r := r + [Element(p, node, Read(data, p, node))];
          seen := seen + {(p, node)};
          todo := todo - {p};
        }
        nodes := nodes - {node};
      }
      assert seen == held;
    }
  }

  /** The list holds every one of the instances, once, with its value. */
  ghost predicate Lists<T>(r: seq<Element<T>>, seen: set<Instance>, data: map<string, Option<T>>) {
    && (forall p, node :: (p, node) in seen <==> Element(p, node, Read(data, p, node)) in r)
    && (forall k :: 0 <= k < |r| ==> r[k].value == Read(data, r[k].p, r[k].node))
    && (forall i, j :: 0 <= i < j < |r| ==> (r[i].p, r[i].node) != (r[j].p, r[j].node))
  }

  lemma ListsOneMore<T>(r: seq<Element<T>>, seen: set<Instance>, data: map<string, Option<T>>, i: Instance)
    requires Lists(r, seen, data) && i !in seen
    ensures Lists(r + [Element(i.0, i.1, Read(data, i.0, i.1))], seen + {i}, data)
  {
    var e := Element(i.0, i.1, Read(data, i.0, i.1));
    forall k | 0 <= k < |r| ensures (r[k].p, r[k].node) != i {
      assert r[k] in r;
    }
    forall p, node ensures (p, node) in seen + {i} <==> Element(p, node, Read(data, p, node)) in r + [e] {
      assert Element(p, node, Read(data, p, node)) in r + [e]
             <==> Element(p, node, Read(data, p, node)) in r || Element(p, node, Read(data, p, node)) == e;
    }
  }

  // ---------------------------------------------------------------- one map

  type Simple<T> = map<Instance, Option<T>>

  function ApplySimple<T>(m: Simple<T>, c: Call<T>): Simple<T> {
    match c
    case Set(p, node, v) => m[(p, node) := v]
    case Unset(p, node) => m - {(p, node)}
    case DropNode(node) => map i | i in m && i.1 != node :: m[i]
  }

  ghost function Run<T>(calls: seq<Call<T>>): Holder<T> {
    if calls == [] then Holder({}, map[]) else Apply(Run(calls[..|calls| - 1]), calls[|calls| - 1])
  }

  function RunSimple<T>(calls: seq<Call<T>>): Simple<T> {
    if calls == [] then map[] else ApplySimple(RunSimple(calls[..|calls| - 1]), calls[|calls| - 1])
  }

  function Get<T>(m: Simple<T>, i: Instance): Option<T> {
    if i in m then m[i] else None
  }

  /** On these instances every getter reads what the one map holds. */
  ghost predicate Agrees<T>(h: Holder<T>, m: Simple<T>, among: iset<Instance>) {
    && h.held == m.Keys
    && h.data.Keys == JoinedAll(m.Keys)
    && forall i :: i in among ==> Read(h.data, i.0, i.1) == Get(m, i)
  }

  ghost predicate Injective(among: iset<Instance>) {
    forall i, j :: i in among && j in among && Joined(i) == Joined(j) ==> i == j
  }

  predicate Within<T>(c: Call<T>, among: iset<Instance>) {
    c.DropNode? || (c.p, c.node) in among
  }

  lemma DropAgrees<T>(h: Holder<T>, m: Simple<T>, gone: set<Instance>, among: iset<Instance>)
    requires Agrees(h, m, among) && Injective(among)
    requires (forall i :: i in m ==> i in among) && (forall i :: i in gone ==> i in among)
    ensures Agrees(Drop(h, gone), m - gone, among)
  {
    var d := Drop(h, gone);
    forall i | i in among ensures Read(d.data, i.0, i.1) == Get(m - gone, i) {
      assert Read(h.data, i.0, i.1) == Get(m, i);
      assert Joined(i) in JoinedAll(gone) <==> i in gone;
    }
    forall s ensures s in d.data.Keys <==> s in JoinedAll((m - gone).Keys) {
      if s in d.data.Keys {
        var i :| i in m && s == Joined(i);
        assert i !in gone;
      }
      if s in JoinedAll((m - gone).Keys) {
        var i :| i in m - gone && s == Joined(i);
        assert i in m && i in among;
        assert s !in JoinedAll(gone);
      }
    }
  }

  lemma SetAgrees<T>(h: Holder<T>, m: Simple<T>, i: Instance, v: Option<T>, among: iset<Instance>)
    requires Agrees(h, m, among) && Injective(among) && i in among
    ensures Agrees(Apply(h, Call.Set(i.0, i.1, v)), m[i := v], among)
  {
    var d := Apply(h, Call.Set(i.0, i.1, v));
    assert i == (i.0, i.1);
    assert d.held == m[i := v].Keys;
    forall s ensures s in d.data.Keys <==> s in JoinedAll(m[i := v].Keys) {
      if s == Joined(i) {
        assert i in m[i := v];
      } else if s in h.data.Keys {
        var j :| j in m && s == Joined(j);
        assert j in m[i := v];
      }
    }
    forall j | j in among ensures Read(d.data, j.0, j.1) == Get(m[i := v], j) {
      assert Read(h.data, j.0, j.1) == Get(m, j);
      assert Joined(i) == Joined(j) <==> i == j;
    }
  }

  lemma StepAgrees<T>(h: Holder<T>, m: Simple<T>, c: Call<T>, among: iset<Instance>)
    requires Agrees(h, m, among) && Injective(among) && Within(c, among) && forall i :: i in m ==> i in among
    ensures Agrees(Apply(h, c), ApplySimple(m, c), among)
    ensures forall i :: i in ApplySimple(m, c) ==> i in among
  {
    match c
    case Set(p, node, v) => SetAgrees(h, m, (p, node), v, among);
    case Unset(p, node) => DropAgrees(h, m, {(p, node)}, among);
    case DropNode(node) =>
      var gone := OnNode(h.held, node);
      DropAgrees(h, m, gone, among);
      assert ApplySimple(m, c) == m - gone;
  }

  ghost predicate AllWithin<T>(calls: seq<Call<T>>, among: iset<Instance>) {
    forall k :: 0 <= k < |calls| ==> Within(calls[k], among)
  }

  /** After any calls on instances told apart by their joined text, the getters agree with one map. */
  lemma {:induction false} RunAgrees<T>(calls: seq<Call<T>>, among: iset<Instance>)
    requires Injective(among) && AllWithin(calls, among)
    ensures Agrees(Run(calls), RunSimple(calls), among)
    ensures forall i :: i in RunSimple(calls) ==> i in among
  {
    if calls == [] {
    } else {
      var n := |calls| - 1;
      RunAgrees(calls[..n], among);
      StepAgrees(Run(calls[..n]), RunSimple(calls[..n]), calls[n], among);
    }
  }

  /** Every run on these instances agrees with one map. */
  ghost predicate AlwaysAgrees<T(!new)>(among: iset<Instance>) {
    forall calls: seq<Call<T>> :: AllWithin(calls, among) ==> Agrees(Run(calls), RunSimple(calls), among)
  }

  /** A value set for an instance is read for the other one of the same text. */
  lemma OneSetDisagrees<T>(v: T, i: Instance, j: Instance, among: iset<Instance>)
    requires i in among && j in among && i != j && Joined(i) == Joined(j)
    ensures var calls := [Call.Set(i.0, i.1, Some(v))];
            AllWithin(calls, among) && !Agrees(Run(calls), RunSimple(calls), among)
  {
    var calls := [Call.Set(i.0, i.1, Some(v))];
    assert calls[..0] == [];
    assert i == (i.0, i.1);
    assert Read(Run(calls).data, j.0, j.1) == Some(v);
    assert Get(RunSimple(calls), j) == None;
  }

  /** The getters agree with one map after every run exactly when the joined text tells the instances apart. */
  lemma AgreesExactly<T(!new)>(v: T, among: iset<Instance>)
    ensures AlwaysAgrees<T>(among) <==> Injective(among)
  {
    if Injective(among) {
      forall calls: seq<Call<T>> | AllWithin(calls, among) ensures Agrees(Run(calls), RunSimple(calls), among) {
        RunAgrees(calls, among);
      }
    } else {
      var i, j :| i in among && j in among && Joined(i) == Joined(j) && i != j;
      OneSetDisagrees(v, i, j, among);
    }
  }

  // ---------------------------------------------------------------- which instances the text tells apart

  lemma StrHasNoAt(p: Path)
    requires WellFormed(p)
    ensures !Has(Str(p), '@')
  {
    WellFormedIsPlain(p);
    PlainHasNot(p.namespace, '@');
    PlainHasNot(p.kind, '@');
    PlainHasNot(p.name, '@');
  }

  /** The joined text tells two instances apart, whatever the nodes are named, but for twins on one node. */
  lemma JoinedTells(p: Path, node: string, q: Path, other: string)
    requires WellFormed(p) && WellFormed(q)
    ensures InstanceString(p, node) == InstanceString(q, other) <==> node == other && (p == q || Twins(p, q))
  {
    StrHasNoAt(p);
    StrHasNoAt(q);
    CutAt(Str(p), '@', node);
    CutAt(Str(q), '@', other);
    StrTells(p, q);
  }

  ghost function InstancesOf(paths: iset<Path>): iset<Instance> {
    iset i: Instance | i.0 in paths
  }

  ghost predicate NoTwins(paths: iset<Path>) {
    forall p, q :: p in paths && q in paths ==> !Twins(p, q)
  }

  lemma InjectiveMeansNoTwins(paths: iset<Path>)
    requires forall p :: p in paths ==> WellFormed(p)
    ensures Injective(InstancesOf(paths)) <==> NoTwins(paths)
  {
    var among := InstancesOf(paths);
    if NoTwins(paths) {
      forall i, j | i in among && j in among && Joined(i) == Joined(j) ensures i == j {
        JoinedTells(i.0, i.1, j.0, j.1);
      }
    } else {
      var p, q :| p in paths && q in paths && Twins(p, q);
      JoinedTells(p, "", q, "");
      assert (p, "") in among && (q, "") in among && Joined((p, "")) == Joined((q, ""));
      assert p != q;
    }
  }

  /** Of the objects named, the holder is one map exactly when no svc and ccfg of the root namespace share a name. */
  lemma HolderIsOneMapExactly<T(!new)>(v: T, paths: iset<Path>)
    requires forall p :: p in paths ==> WellFormed(p)
    ensures AlwaysAgrees<T>(InstancesOf(paths)) <==> NoTwins(paths)
  {
    InjectiveMeansNoTwins(paths);
    AgreesExactly(v, InstancesOf(paths));
  }

  /** A svc and a ccfg with one name share one value: the last one set, and none once either is unset. */
  lemma TwinsShareOneValue<T>(name: string, node: string, v: T, w: T)
    ensures var p, q := Path(name, ROOT, SVC), Path(name, ROOT, CCFG);
            var calls := [Call.Set(p, node, Some(v)), Call.Set(q, node, Some(w))];
            var h := Run(calls);
            var after := Apply(h, Call.Unset(q, node));
            && Read(h.data, p, node) == Some(w)
            && (p, node) in after.held && Read(after.data, p, node) == None
  {
    var p, q := Path(name, ROOT, SVC), Path(name, ROOT, CCFG);
    TextOfShort(p);
    TextOfShort(q);
    var calls := [Call.Set(p, node, Some(v)), Call.Set(q, node, Some(w))];
    assert calls[..1] == [Call.Set(p, node, Some(v))] && calls[..1][..0] == [];
    assert (q, node) != (p, node);
    assert Joined((q, node)) == InstanceString(p, node);
    assert (q, node) in {(q, node)};
  }
}
