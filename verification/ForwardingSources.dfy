/**
 Which mail accounts forward to an address, directly or through others: a fixed point over the forwarding lists.
 */
module ForwardingSources {
  type Address = string

  type Graph = map<Address, seq<Address>>

  /** Each account on the way forwards to the next address. */
  predicate IsPath(graph: Graph, path: seq<Address>) {
    path != [] && forall i :: 0 <= i < |path| - 1 ==> path[i] in graph && path[i + 1] in graph[path[i]]
  }

  /** Mail to the address reaches the base, in any number of steps. */
  ghost predicate Forwards(graph: Graph, address: Address, base: Address) {
    exists path :: IsPath(graph, path) && path[0] == address && path[|path| - 1] == base
  }

  lemma ForwardsToItself(graph: Graph, base: Address)
    ensures Forwards(graph, base, base)
  {
    assert IsPath(graph, [base]);
  }

  lemma ForwardsOnceMore(graph: Graph, source: Address, address: Address, base: Address)
    requires source in graph && address in graph[source] && Forwards(graph, address, base)
    ensures Forwards(graph, source, base)
  {
    var path :| IsPath(graph, path) && path[0] == address && path[|path| - 1] == base;
    var longer := [source] + path;
    assert IsPath(graph, longer) by {
      forall i | 0 <= i < |longer| - 1 ensures longer[i] in graph && longer[i + 1] in graph[longer[i]] {
        assert i > 0 ==> longer[i] == path[i - 1];
      }
    }
  }

  /** No account outside forwards into the set. */
  predicate Closed(graph: Graph, reached: set<Address>) {
    forall source :: source in graph && source !in reached ==>
      forall i :: 0 <= i < |graph[source]| ==> graph[source][i] !in reached
  }

  /** A closed set that has the end of a path has its beginning. */
  lemma {:induction false} ClosedHasPath(graph: Graph, reached: set<Address>, path: seq<Address>)
    requires Closed(graph, reached) && IsPath(graph, path) && path[|path| - 1] in reached
    ensures path[0] in reached
    decreases |path|
  {
    if |path| > 1 {
      assert IsPath(graph, path[1..]) by {
        forall i | 0 <= i < |path[1..]| - 1 ensures path[1..][i] in graph && path[1..][i + 1] in graph[path[1..][i]] {
          assert path[1..][i] == path[i + 1];
        }
      }
      ClosedHasPath(graph, reached, path[1..]);
      var i :| 0 <= i < |graph[path[0]]| && graph[path[0]][i] == path[1];
    }
  }

  /** `discover_forwarding_sources`: the base and exactly the accounts that forward to it. */
  method Discover(graph: Graph, base: Address) returns (reached: set<Address>)
    ensures forall address :: address in reached <==> Forwards(graph, address, base)
  {
    hide Forwards, IsPath, Closed;
    reached := {base};
    ForwardsToItself(graph, base);
    var changed := true;
    while changed
      invariant base in reached && forall address :: address in reached ==> Forwards(graph, address, base)
      invariant !changed ==> Closed(graph, reached)
      decreases |graph.Keys - reached|, changed
    {
      var additions := set source |
        source in graph && source !in reached && exists i :: 0 <= i < |graph[source]| && graph[source][i] in reached;
      changed := additions != {};
      forall source | source in additions ensures Forwards(graph, source, base) {
        var i :| 0 <= i < |graph[source]| && graph[source][i] in reached;
        ForwardsOnceMore(graph, source, graph[source][i], base);
      }
      if changed {
        Shrinks(graph.Keys, reached, additions);
      } else {
        NothingToAdd(graph, reached, additions);
      }
      reached := reached + additions;
    }
    forall address | Forwards(graph, address, base) ensures address in reached {
      ClosedHasAll(graph, reached, address, base);
    }
  }

  lemma ClosedHasAll(graph: Graph, reached: set<Address>, address: Address, base: Address)
    requires Closed(graph, reached) && base in reached && Forwards(graph, address, base)
    ensures address in reached
  {
    var path :| IsPath(graph, path) && path[0] == address && path[|path| - 1] == base;
    ClosedHasPath(graph, reached, path);
  }

  lemma Shrinks(accounts: set<Address>, reached: set<Address>, additions: set<Address>)
    requires additions != {} && additions <= accounts && additions !! reached
    ensures |accounts - (reached + additions)| < |accounts - reached|
  {
    assert accounts - reached == (accounts - (reached + additions)) + additions;
  }

  lemma NothingToAdd(graph: Graph, reached: set<Address>, additions: set<Address>)
    requires additions == {}
    requires forall source ::
               source in graph && source !in reached
                 && (exists i :: 0 <= i < |graph[source]| && graph[source][i] in reached)
               ==> source in additions
    ensures Closed(graph, reached + additions)
  {
    assert reached + additions == reached;
  }
}
