/**
 * The broker status tree of the `getbrokerstatus` task: a node named by its
 * broker, holding its application-server entries and job entries without
 * duplicates, and a list of sub-brokers appended without any check. The
 * entry types are parameters `A` and `J`, compared by their equality.
 */
module BrokerModel {
  import opened JavaStrings

  /** No element occurs twice. */
  predicate NoDuplicates<T(==)>(s: seq<T>) {
    forall i, j :: 0 <= i < j < |s| ==> s[i] != s[j]
  }

  /** `if (!list.contains(x)) list.add(x)`. */
  function AppendIfAbsent<T(==)>(list: seq<T>, x: T): (r: seq<T>)
    ensures x in r
    ensures |list| <= |r| <= |list| + 1 && r[..|list|] == list
    ensures |r| == |list| + 1 <==> x !in list
    ensures NoDuplicates(list) ==> NoDuplicates(r)
  {
    if x in list then list else list + [x]
  }

  /** The list after adding every entry of `xs`, in order, with `AppendIfAbsent`. */
  function AddAll<T(==)>(list: seq<T>, xs: seq<T>): seq<T>
    decreases |xs|
  {
    if xs == [] then list else AddAll(AppendIfAbsent(list, xs[0]), xs[1..])
  }

  /** A run of additions keeps a duplicate-free list duplicate-free. */
  lemma {:induction false} AddAllDistinct<T>(list: seq<T>, xs: seq<T>)
    requires NoDuplicates(list)
    ensures NoDuplicates(AddAll(list, xs))
    decreases |xs|
  {
    if xs != [] {
      AddAllDistinct(AppendIfAbsent(list, xs[0]), xs[1..]);
    }
  }

  /** A run of additions keeps the entries already there, in place. */
  lemma {:induction false} AddAllKeepsPrefix<T>(list: seq<T>, xs: seq<T>)
    ensures |list| <= |AddAll(list, xs)| && AddAll(list, xs)[..|list|] == list
    decreases |xs|
  {
    if xs != [] {
      var next := AppendIfAbsent(list, xs[0]);
      AddAllKeepsPrefix(next, xs[1..]);
      var r := AddAll(next, xs[1..]);
      assert r[..|list|] == r[..|next|][..|list|];
    }
  }

  /** After a run of additions the list holds exactly the entries it had and the entries added. */
  lemma {:induction false} AddAllMembers<T>(list: seq<T>, xs: seq<T>, y: T)
    ensures y in AddAll(list, xs) <==> y in list || y in xs
    decreases |xs|
  {
    if xs != [] {
      var next := AppendIfAbsent(list, xs[0]);
      AddAllMembers(next, xs[1..], y);
      assert y in next <==> y in list || y == xs[0];
      assert xs == [xs[0]] + xs[1..];
    }
  }

  /** Adding an entry a second time changes nothing. */
  lemma AppendIfAbsentIdempotent<T>(list: seq<T>, x: T)
    ensures AppendIfAbsent(AppendIfAbsent(list, x), x) == AppendIfAbsent(list, x)
  {
  }

  /** A null list reads as empty: the list a lazily created list starts from. */
  function OrEmpty<T>(list: Option<seq<T>>): seq<T> {
    match list
    case None => []
    case Some(s) => s
  }

  /** The task name of every broker status node. */
  const StatusTaskName := "getbrokerstatus"

  /** `BrokerStatusInfos`. */
  class BrokerStatusInfos<A(==), J(==)> {
    var bname: Option<string>
    var asInfoList: Option<seq<A>>
    var jobInfoList: Option<seq<J>>
    var subBrokerStatusInfos: seq<BrokerStatusInfos<A, J>>

    /** The state of a freshly constructed node. */
    predicate IsEmptyNode()
      reads this
    {
      bname == None && asInfoList == Some([]) && jobInfoList == None && subBrokerStatusInfos == []
    }

    constructor ()
      ensures IsEmptyNode()
    {
      bname := None;
      subBrokerStatusInfos := [];
      asInfoList := Some([]);
      jobInfoList := None;
    }

    /** `getTaskName`. */
    function GetTaskName(): (r: string)
      ensures r == StatusTaskName
    {
      StatusTaskName
    }

    function GetBname(): (r: Option<string>)
      reads this
      ensures r == bname
    {
      bname
    }

    method SetBname(s: Option<string>)
      modifies this
      ensures GetBname() == s
      ensures asInfoList == old(asInfoList) && jobInfoList == old(jobInfoList)
      ensures subBrokerStatusInfos == old(subBrokerStatusInfos)
    {
      bname := s;
    }

    /** Creates the list when null, then appends the entry unless it is already there. */
    method AddAsInfo(x: A)
      modifies this
      ensures asInfoList == Some(AppendIfAbsent(OrEmpty(old(asInfoList)), x))
      ensures bname == old(bname) && jobInfoList == old(jobInfoList)
      ensures subBrokerStatusInfos == old(subBrokerStatusInfos)
    {
      if asInfoList.None? {
        asInfoList := Some([]);
      }
      if x !in asInfoList.value {
        asInfoList := Some(asInfoList.value + [x]);
      }
    }

    /** Appends the sub-broker, even when it is already in the list. */
    method AddBroker(b: BrokerStatusInfos<A, J>)
      modifies this
      ensures subBrokerStatusInfos == old(subBrokerStatusInfos) + [b]
      ensures bname == old(bname) && asInfoList == old(asInfoList) && jobInfoList == old(jobInfoList)
    {
      subBrokerStatusInfos := subBrokerStatusInfos + [b];
    }

    /** Creates the list when null, so the first entry gives `[x]`, then appends unless present. */
    method AddJobInfo(x: J)
      modifies this
      ensures jobInfoList == Some(AppendIfAbsent(OrEmpty(old(jobInfoList)), x))
      ensures bname == old(bname) && asInfoList == old(asInfoList)
      ensures subBrokerStatusInfos == old(subBrokerStatusInfos)
    {
      if jobInfoList.None? {
        jobInfoList := Some([]);
      }
      if x !in jobInfoList.value {
        jobInfoList := Some(jobInfoList.value + [x]);
      }
    }

    /**
     * `getSubBrokerByName`: the first direct child with that name; failing
     * that the node itself when it bears the name; failing that, and for a
     * null name, a new empty node. Grandchildren are not searched.
     */
    method GetSubBrokerByName(n: Option<string>) returns (r: BrokerStatusInfos<A, J>)
      ensures n.None? ==> fresh(r) && r.IsEmptyNode()
      ensures n.Some? ==>
        var k := FirstNamed(subBrokerStatusInfos, n.value);
        if k < |subBrokerStatusInfos| then r == subBrokerStatusInfos[k]
        else if bname == n then r == this
        else fresh(r) && r.IsEmptyNode()
    {
      var empty := new BrokerStatusInfos<A, J>();
      if n.None? {
        return empty;
      }
      for i := 0 to |subBrokerStatusInfos|
        invariant forall j :: 0 <= j < i ==> subBrokerStatusInfos[j].bname != n
      {
        var child := subBrokerStatusInfos[i];
        if child.GetBname() == n {
          return child;
        }
      }
      if bname == n {
        return this;
      }
      return empty;
    }
  }

  /** The position of the first node named `n`, or `|nodes|` when none is. */
  function FirstNamed<A(==), J(==)>(nodes: seq<BrokerStatusInfos<A, J>>, n: string): (k: nat)
    reads nodes
    ensures k <= |nodes|
    ensures forall j :: 0 <= j < k ==> nodes[j].bname != Some(n)
    ensures k < |nodes| ==> nodes[k].bname == Some(n)
  {
    if nodes == [] then 0
    else if nodes[0].bname == Some(n) then 0
    else 1 + FirstNamed(nodes[1..], n)
  }

  /** Appending a node never changes where an earlier node of that name is found. */
  lemma {:induction false} FirstNamedAppend<A, J>(nodes: seq<BrokerStatusInfos<A, J>>, c: BrokerStatusInfos<A, J>, n: string)
    ensures FirstNamed(nodes + [c], n) ==
      if FirstNamed(nodes, n) < |nodes| || c.bname == Some(n) then FirstNamed(nodes, n) else |nodes| + 1
  {
    if nodes != [] {
      assert (nodes + [c])[1..] == nodes[1..] + [c];
      FirstNamedAppend(nodes[1..], c, n);
    }
  }

  /**
   * A sub-broker just added under a name is what the lookup by that name
   * returns, unless an earlier sub-broker bears the name: the first one wins.
   */
  method LookupAfterAddBroker<A(==), J(==)>(parent: BrokerStatusInfos<A, J>, c: BrokerStatusInfos<A, J>, n: string)
    returns (found: BrokerStatusInfos<A, J>)
    requires c.bname == Some(n)
    modifies parent
    ensures parent.subBrokerStatusInfos == old(parent.subBrokerStatusInfos) + [c]
    ensures old(FirstNamed(parent.subBrokerStatusInfos, n)) == old(|parent.subBrokerStatusInfos|) ==> found == c
    ensures old(FirstNamed(parent.subBrokerStatusInfos, n)) < old(|parent.subBrokerStatusInfos|) ==>
      found == old(parent.subBrokerStatusInfos[FirstNamed(parent.subBrokerStatusInfos, n)])
  {
    ghost var before := parent.subBrokerStatusInfos;
    ghost var k := FirstNamed(before, n);
    parent.AddBroker(c);
    assert FirstNamed(before, n) == k;
    FirstNamedAppend(before, c, n);
    found := parent.GetSubBrokerByName(Some(n));
  }
}
