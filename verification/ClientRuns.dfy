/** Whole sessions of a debugger client: any sequence of what the user asks for and the server reports. */
module ClientRuns {
  import opened ClientIndex

  /** What makes the client change its indexes: the commands `break` and `delete`, a released function, and a parse
      that has come to its end. */
  datatype Request =
    | Set(target: Target, quiet: bool, answer: bool)
    | Remove(which: Which)
    | Released(code: nat)
    | Parsed(added: Functions)

  /** The breakpoints of the functions that the request brings. */
  ghost function Brought(r: Request): set<Breakpoint> {
    if r.Parsed? then Listed(r.added) else {}
  }

  predicate WellFormed(r: Request) {
    r.Parsed? ==> AllProper(r.added) && FirstLines(r.added) && forall code | code in r.added :: r.added[code].byteCode == code
  }

  /** No request from the k-th on brings a breakpoint that is there already, or that another one brings. */
  ghost predicate Ahead(functions: Functions, requests: seq<Request>, k: nat)
    reads AllBrought(requests)
  {
    && (forall j, b | k <= j < |requests| && b in Brought(requests[j]) :: b.activeIndex < 0 && b !in Listed(functions))
    && (forall i, j | k <= i < j < |requests| :: Brought(requests[i]) !! Brought(requests[j]))
  }

  ghost function AllBrought(requests: seq<Request>): set<Breakpoint> {
    set j, b | 0 <= j < |requests| && b in Brought(requests[j]) :: b
  }

  /** From s to t, an index that was already given means what it meant or nothing any more. */
  predicate NotReused(s: State, t: State, index: nat) {
    && index <= t.next
    && (index in t.active ==> index in s.active && t.active[index] == s.active[index])
    && (index in t.pending ==> index in s.pending && t.pending[index] == s.pending[index])
  }

  predicate Successive(run: seq<State>) {
    forall k | 0 < k < |run| :: Later(run[k - 1], run[k])
  }

  lemma {:induction false} NeverReused(run: seq<State>, i: nat, j: nat, index: nat)
    requires i <= j < |run| && Successive(run) && index <= run[i].next
    ensures NotReused(run[i], run[j], index)
    decreases j - i
  {
    if i < j {
      NeverReused(run, i, j - 1, index);
      assert Later(run[j - 1], run[j]);
    }
  }

  lemma ActiveIsListed(client: Client)
    requires client.Valid()
    ensures client.active.Values <= Listed(client.functions)
  {
    forall b | b in client.active.Values
      ensures b in Listed(client.functions)
    {
      ListedIsLive(client.functions, b);
    }
  }

  lemma ListedFewer(functions: Functions, code: nat)
    ensures Listed(functions - {code}) <= Listed(functions)
  {
  }

  /** One request. A release of an unknown function and functions under pointers in use do not occur; they are ignored. */
  method Serve(client: Client, r: Request)
    requires client.Valid() && WellFormed(r) && forall b | b in Brought(r) :: b.activeIndex < 0
    modifies client, client.lineList, Listed(client.functions)`activeIndex, Brought(r)`activeIndex
    ensures client.Valid() && Later(old(client.Indexes()), client.Indexes())
    ensures Listed(client.functions) <= old(Listed(client.functions)) + Brought(r)
  {
    ActiveIsListed(client);
    hide *;
    LaterSame(client.Indexes());
    match r {
      case Set(target, quiet, answer) =>
        var _ := client.SetBreakpoint(target, quiet, answer);
      case Remove(which) =>
        client.Delete(which);
      case Released(code) =>
        if code in client.functions {
          ListedFewer(client.functions, code);
          client.Release(code);
        }
      case Parsed(added) =>
        if added.Keys !! client.functions.Keys {
          ListedAdded(client.functions, added);
          client.ParseCompleted(added);
        }
    }
  }

  /** Any sequence of requests: an index that was given once is never given again, to an active or a pending
      breakpoint, and one in use never changes its breakpoint. */
  method ServeAll(client: Client, requests: seq<Request>) returns (ghost run: seq<State>)
    requires client.Valid() && (forall r | r in requests :: WellFormed(r)) && Ahead(client.functions, requests, 0)
    modifies client, client.lineList, Listed(client.functions)`activeIndex, AllBrought(requests)`activeIndex
    ensures client.Valid() && |run| == |requests| + 1 && run[0] == old(client.Indexes()) && run[|requests|] == client.Indexes()
    ensures forall i, j, index: nat | 0 <= i <= j < |run| && index <= run[i].next :: NotReused(run[i], run[j], index)
  {
    run := [client.Indexes()];
    ghost var world := Listed(client.functions) + AllBrought(requests);
    for k := 0 to |requests|
      invariant client.Valid() && Ahead(client.functions, requests, k) && Listed(client.functions) <= world
      invariant |run| == k + 1 && run[0] == old(client.Indexes()) && run[k] == client.Indexes() && Successive(run)
    {
      assert requests[k] in requests;
      Serve(client, requests[k]);
      run := run + [client.Indexes()];
    }
    forall i, j, index: nat | 0 <= i <= j < |run| && index <= run[i].next
      ensures NotReused(run[i], run[j], index)
    {
      NeverReused(run, i, j, index);
    }
  }
}
