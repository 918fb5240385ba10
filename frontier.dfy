/**
 * What one scanned page contributes to the BFS frontier (the link loop in `crawl`):
 * each discovered link, in document order, is skipped when already visited,
 * enqueued and marked visited when it lies inside the scope, and otherwise dropped.
 */
module Frontier {
  import opened Util
  import opened PyText
  import opened ScopeGuard

  /**
   * The BFS frontier: the queue is exactly the enqueued URLs not yet popped, in enqueue
   * order (FIFO), no URL was ever enqueued twice, and every enqueued URL is visited.
   */
  ghost predicate ValidFrontier(popped: nat, enqueued: seq<string>, queue: seq<string>, visited: set<string>) {
    && popped <= |enqueued|
    && queue == enqueued[popped..]
    && Distinct(enqueued)
    && forall i :: 0 <= i < |enqueued| ==> enqueued[i] in visited
  }

  /** Appending URLs that are pairwise distinct and not yet visited, and visiting them, keeps the frontier valid. */
  lemma ValidFrontierExtends(popped: nat, enqueued: seq<string>, queue: seq<string>, visited: set<string>,
                             acc: seq<string>)
    requires ValidFrontier(popped, enqueued, queue, visited)
    requires Distinct(acc) && forall i :: 0 <= i < |acc| ==> acc[i] !in visited
    ensures ValidFrontier(popped, enqueued + acc, queue + acc, visited + Elems(acc))
  {
    var e := enqueued + acc;
    assert e[popped..] == enqueued[popped..] + acc;
    forall i, j | 0 <= i < j < |e| ensures e[i] != e[j] {
      if j < |enqueued| {
      } else if i >= |enqueued| {
        assert e[i] == acc[i - |enqueued|] && e[j] == acc[j - |enqueued|];
      } else {
        assert e[i] in visited && e[j] == acc[j - |enqueued|];
      }
    }
    forall i | 0 <= i < |e| ensures e[i] in visited + Elems(acc) {
      if i >= |enqueued| {
        assert e[i] == acc[i - |enqueued|];
      }
    }
  }

  /** `u.split('#')[0]`: the URL without its fragment, which is all a link contributes. */
  function Defragment(u: string): (r: string)
    ensures Lacks(r, '#') && r <= u
  {
    Split(u, '#')[0]
  }

  /** A URL without a fragment is offered unchanged. */
  lemma DefragmentKeepsPlainUrl(u: string)
    requires '#' !in u
    ensures Defragment(u) == u
  {
    SplitWithoutSep(u, '#');
  }

  /** `Defragment` applied to every link of a page, in document order. */
  function Defragmented(links: seq<string>): (r: seq<string>)
    ensures |r| == |links|
    ensures forall i :: 0 <= i < |r| ==> r[i] == Defragment(links[i])
    ensures forall i :: 0 <= i < |r| ==> Lacks(r[i], '#') && r[i] <= links[i]
  {
    seq(|links|, i requires 0 <= i < |links| => Defragment(links[i]))
  }

  /** The links appended to the queue, in order, when `links` are offered against `visited` and `scope`. */
  function Accepted(visited: set<string>, links: seq<string>, scope: string): (r: seq<string>)
    ensures |r| <= |links|
    decreases |links|
  {
    if links == [] then []
    else if links[0] in visited || !IsSubpath(links[0], scope) then Accepted(visited, links[1..], scope)
    else [links[0]] + Accepted(visited + {links[0]}, links[1..], scope)
  }

  /**
   * Every link accepted was offered, lies in scope and was not visited before, and none is
   * accepted twice.
   */
  lemma {:induction false} AcceptedSound(visited: set<string>, links: seq<string>, scope: string)
    ensures var r := Accepted(visited, links, scope);
      && (forall i :: 0 <= i < |r| ==> r[i] in links && IsSubpath(r[i], scope) && r[i] !in visited)
      && Distinct(r)
    decreases |links|
  {
    if links != [] {
      var l0 := links[0];
      if l0 in visited || !IsSubpath(l0, scope) {
        AcceptedSound(visited, links[1..], scope);
      } else {
        var rest := Accepted(visited + {l0}, links[1..], scope);
        AcceptedSound(visited + {l0}, links[1..], scope);
        assert forall i :: 0 <= i < |rest| ==> rest[i] != l0;
      }
    }
  }

  /** One link of the loop: offered at position `i`, it is accepted or skipped before the rest are offered. */
  lemma AcceptedStep(visited: set<string>, links: seq<string>, i: nat, scope: string)
    requires i < |links|
    ensures Accepted(visited, links[i..], scope) ==
      if links[i] in visited || !IsSubpath(links[i], scope) then Accepted(visited, links[i + 1..], scope)
      else [links[i]] + Accepted(visited + {links[i]}, links[i + 1..], scope)
  {
    assert links[i..][0] == links[i] && links[i..][1..] == links[i + 1..];
  }

  /**
   * The loop's bookkeeping for one offer: what was accepted so far, followed by what the rest
   * of the links accept, is the whole.
   */
  lemma AcceptedAdvance(v0: set<string>, links: seq<string>, i: nat, scope: string,
                        added: seq<string>, v: set<string>, added': seq<string>, v': set<string>)
    requires i < |links|
    requires added + Accepted(v, links[i..], scope) == Accepted(v0, links, scope)
    requires if links[i] !in v && IsSubpath(links[i], scope)
             then added' == added + [links[i]] && v' == v + {links[i]}
             else added' == added && v' == v
    ensures added' + Accepted(v', links[i + 1..], scope) == Accepted(v0, links, scope)
  {
    AcceptedStep(v, links, i, scope);
    if links[i] !in v && IsSubpath(links[i], scope) {
      ConcatAssoc(added, [links[i]], Accepted(v + {links[i]}, links[i + 1..], scope));
    }
  }

  /** Nothing in scope is lost: after the offers, every in-scope link is visited or was enqueued now. */
  lemma {:induction false} AcceptedComplete(visited: set<string>, links: seq<string>, scope: string)
    ensures forall l :: l in links && IsSubpath(l, scope) ==> l in visited || l in Accepted(visited, links, scope)
    decreases |links|
  {
    if links != [] {
      var l0 := links[0];
      if l0 in visited || !IsSubpath(l0, scope) {
        AcceptedComplete(visited, links[1..], scope);
      } else {
        AcceptedComplete(visited + {l0}, links[1..], scope);
      }
      forall l | l in links && IsSubpath(l, scope)
        ensures l in visited || l in Accepted(visited, links, scope)
      {
        if l != l0 {
          assert l in links[1..];
        }
      }
    }
  }

  /** Offering a page twice enqueues nothing the second time: the offers are idempotent. */
  lemma {:induction false} AcceptedIdempotent(visited: set<string>, links: seq<string>, scope: string)
    ensures Accepted(visited + Elems(Accepted(visited, links, scope)), links, scope) == []
  {
    AcceptedComplete(visited, links, scope);
    var v := visited + Elems(Accepted(visited, links, scope));
    AllKnownAcceptsNothing(v, links, scope);
  }

  lemma {:induction false} AllKnownAcceptsNothing(visited: set<string>, links: seq<string>, scope: string)
    requires forall l :: l in links && IsSubpath(l, scope) ==> l in visited
    ensures Accepted(visited, links, scope) == []
    decreases |links|
  {
    if links != [] {
      assert forall l :: l in links[1..] ==> l in links;
      AllKnownAcceptsNothing(visited, links[1..], scope);
    }
  }
}
