/**
  Telemetry stream leases: several owners ask for streams at their own rates, and one cached
  map of effective rates decides which subscribe and unsubscribe commands are issued.
  */
module StreamLeases {

  // ---------- The rate a stream should have ----------

  /** The largest element, or zero when there is none. */
  ghost function MaxOrZero(xs: set<int>): (m: int)
    ensures xs == {} ==> m == 0
    ensures xs != {} ==> m in xs && forall x :: x in xs ==> x <= m
  {
    if xs == {} then 0
    else
      assert exists x :: x in xs by { if forall x :: x !in xs { } }
      var x :| x in xs;
      var rest := MaxOrZero(xs - {x});
      if xs == {x} || rest <= x then
        assert forall y :: y in xs ==> y == x || y in xs - {x};
        x
      else
        assert forall y :: y in xs ==> y == x || y in xs - {x};
        rest
  }

  type Leases<Owner> = map<Owner, map<int, int>>

  /** The rates active owners ask for. */
  function Asked<Owner>(leases: Leases<Owner>, inactive: set<Owner>, stream: int): set<int> {
    set o | o in leases && o !in inactive && stream in leases[o] :: leases[o][stream]
  }

  ghost function Desired<Owner>(leases: Leases<Owner>, inactive: set<Owner>, stream: int): int {
    MaxOrZero(Asked(leases, inactive, stream))
  }

  function Rate(effective: map<int, int>, stream: int): int {
    if stream in effective then effective[stream] else 0
  }

  // ---------- Commands ----------

  datatype Command = Subscribe(stream: int, rate: int) | Unsubscribe(stream: int)

  function Obey(m: map<int, int>, c: Command): map<int, int> {
    match c
    case Subscribe(stream, rate) => m[stream := rate]
    case Unsubscribe(stream) => m - {stream}
  }

  /** What a device that obeys the commands in order streams. */
  function Replay(log: seq<Command>): map<int, int> {
    if log == [] then map[] else Obey(Replay(log[..|log| - 1]), log[|log| - 1])
  }

  /** Every command changes something. */
  predicate Needed(log: seq<Command>) {
    log == [] || (Needed(log[..|log| - 1]) && Obey(Replay(log[..|log| - 1]), log[|log| - 1]) != Replay(log[..|log| - 1]))
  }

  // ---------- The object ----------

  class LeaseTable<Owner(==)> {
    var leases: map<Owner, map<int, int>>
    var effective: map<int, int>
    var inactive: set<Owner>
    var client: bool
    const simulationStreams: set<int>
    var simulation: bool

    /** The commands issued since the last restore, and whether a client has been there to
        take every one of them. */
    ghost var log: seq<Command>
    ghost var synced: bool

    ghost function Wanted(stream: int): int
      reads this
    {
      Desired(leases, inactive, stream)
    }

    /** Every lease asks for a positive rate, and no owner is listed without a lease. */
    ghost predicate LeasesValid()
      reads this
    {
      forall o :: o in leases ==> leases[o] != map[] && forall s :: s in leases[o] ==> leases[o][s] >= 1
    }

    /** The cached rate is the wanted one, or zero when the link is not in step. */
    ghost predicate InStep(stream: int)
      reads this
    {
      Rate(effective, stream) == Wanted(stream) || (!synced && Rate(effective, stream) == 0)
    }

    ghost predicate LogValid()
      reads this
    {
      (synced ==> client && Replay(log) == effective && Needed(log))
      && forall s :: s in effective ==> effective[s] >= 1
    }

    ghost predicate Valid()
      reads this
    {
      LeasesValid() && LogValid() && forall s :: InStep(s)
    }

    constructor (simulationStreams: set<int>)
      ensures Valid() && leases == map[] && effective == map[] && !synced
    {
      this.simulationStreams := simulationStreams;
      leases, effective, inactive, client, simulation := map[], map[], {}, false, false;
      log, synced := [], false;
    }

    /** The maximum over the active owners, by a pass over all of them. */
    method Arbitrate(stream: int) returns (desired: int)
      requires LeasesValid()
      ensures desired == Wanted(stream) && desired >= 0
    {
      desired := 0;
      var todo := leases.Keys;
      ghost var seen: set<int> := {};
      while todo != {}
        invariant todo <= leases.Keys
        invariant forall o :: o in leases && o !in todo && o !in inactive && stream in leases[o] ==> leases[o][stream] in seen
        invariant forall x :: x in seen ==> x in Asked(leases, inactive, stream) && 1 <= x <= desired
        invariant if seen == {} then desired == 0 else desired in seen
      {
        var o :| o in todo;
        if o !in inactive && stream in leases[o] {
          var rate := leases[o][stream];
          if rate > desired {
            desired := rate;
          }
          seen := seen + {rate};
        }
        todo := todo - {o};
      }
      assert forall x :: x in Asked(leases, inactive, stream) ==> x in seen;
      ghost var asked := Asked(leases, inactive, stream);
      assert forall x :: x in seen ==> x in asked;
      assert asked == seen;
    }

    /** Bring one stream in step, with a command only if its rate changes. */
    method ApplyStreamRate(stream: int)
      requires LeasesValid() && LogValid()
      modifies this`effective, this`log
      ensures LogValid()
      ensures Rate(effective, stream) == Wanted(stream)
      ensures forall s :: s != stream ==> Rate(effective, s) == old(Rate(effective, s))
    {
      var desired := Arbitrate(stream);
      var current := Rate(effective, stream);
      if desired == current {
        return;
      }
      if desired != 0 {
        effective := effective[stream := desired];
        Issue(Subscribe(stream, desired));
      } else {
        effective := effective - {stream};
        Issue(Unsubscribe(stream));
      }
    }

    /** A command goes out only while there is a client. */
    method Issue(c: Command)
      modifies this`log
      ensures log == if client then old(log) + [c] else old(log)
    {
      if client {
        log := log + [c];
      }
    }

    /** The loop every operation ends in. */
    method ApplyEach(streams: set<int>)
      requires LeasesValid() && LogValid()
      modifies this`effective, this`log
      ensures LogValid()
      ensures forall s :: s in streams ==> Rate(effective, s) == Wanted(s)
      ensures forall s :: s !in streams ==> Rate(effective, s) == old(Rate(effective, s))
    {
      var todo := streams;
      while todo != {}
        invariant todo <= streams && LogValid()
        invariant forall s :: s in streams && s !in todo ==> Rate(effective, s) == Wanted(s)
        invariant forall s :: s !in streams ==> Rate(effective, s) == old(Rate(effective, s))
      {
        assert exists s :: s in todo by { if forall s :: s !in todo { } }
        var s :| s in todo;
        ApplyStreamRate(s);
        todo := todo - {s};
      }
    }

    /** Ask for a stream at a rate of at least one. */
    method Acquire(owner: Owner, stream: int, rateHz: int)
      requires Valid()
      modifies this`leases, this`effective, this`log
      ensures Valid()
      ensures var rate := if rateHz < 1 then 1 else rateHz;
              leases == if simulation && stream !in simulationStreams then old(leases)
                        else old(leases)[owner := Held(old(leases), owner)[stream := rate]]
      ensures forall s :: s != stream ==> Rate(effective, s) == old(Rate(effective, s))
    {
      if simulation && stream !in simulationStreams {
        return;
      }
      var requested := Held(leases, owner);
      var rate := if rateHz < 1 then 1 else rateHz;
      if stream in requested && requested[stream] == rate {
        assert requested[stream := rate] == requested && leases[owner := requested] == leases;
        return;
      }
      ghost var before := leases;
      leases := leases[owner := requested[stream := rate]];
      ApplyStreamRate(stream);
      forall s | s != stream ensures InStep(s) {
        assert old(InStep(s));
        SameShares(before, leases, inactive, inactive, s);
      }
    }

    /** Give up every lease of an owner. */
    method ReleaseStreams(owner: Owner)
      requires Valid()
      modifies this`leases, this`effective, this`log
      ensures Valid() && leases == old(leases) - {owner}
      ensures forall s :: s !in Held(old(leases), owner) ==> Rate(effective, s) == old(Rate(effective, s))
    {
      var requested := Held(leases, owner);
      ghost var before := leases;
      leases := leases - {owner};
      ApplyEach(requested.Keys);
      forall s | s !in requested ensures InStep(s) {
        assert old(InStep(s));
        SameShares(before, leases, inactive, inactive, s);
      }
    }

    /** Give up one lease; an owner whose last lease it was is forgotten. */
    method ReleaseStream(owner: Owner, stream: int)
      requires Valid()
      modifies this`leases, this`effective, this`log
      ensures Valid()
      ensures var rest := Held(old(leases), owner) - {stream};
              leases == if stream !in Held(old(leases), owner) then old(leases)
                        else if rest == map[] then old(leases) - {owner} else old(leases)[owner := rest]
      ensures forall s :: s != stream ==> Rate(effective, s) == old(Rate(effective, s))
    {
      var requested := Held(leases, owner);
      if stream !in requested {
        return;
      }
      ghost var before := leases;
      var rest := requested - {stream};
      if rest == map[] {
        leases := leases - {owner};
      } else {
        leases := leases[owner := rest];
      }
      ApplyStreamRate(stream);
      forall s | s != stream ensures InStep(s) {
        assert old(InStep(s));
        SameShares(before, leases, inactive, inactive, s);
      }
    }

    /** Count an owner's leases, or leave them out. */
    method SetOwnerActive(owner: Owner, active: bool)
      requires Valid()
      modifies this`inactive, this`effective, this`log
      ensures Valid() && inactive == if active then old(inactive) - {owner} else old(inactive) + {owner}
      ensures forall s :: s !in Held(leases, owner) ==> Rate(effective, s) == old(Rate(effective, s))
    {
      if active == (owner !in inactive) {
        return;
      }
      ghost var before := inactive;
      if active {
        inactive := inactive - {owner};
      } else {
        inactive := inactive + {owner};
      }
      ApplyEach(Held(leases, owner).Keys);
      forall s | s !in Held(leases, owner) ensures InStep(s) {
        assert old(InStep(s));
        SameShares(leases, leases, before, inactive, s);
      }
    }

    /** The link came up: forget what was streaming and ask again for everything leased. */
    method Restore()
      requires Valid()
      modifies this`effective, this`log, this`synced
      ensures Valid() && synced == client
    {
      effective, log, synced := map[], [], client;
      var streams := set o, s | o in leases && s in leases[o] :: s;
      ApplyEach(streams);
      forall s | s !in streams ensures Wanted(s) == 0 {
        assert Asked(leases, inactive, s) == {};
      }
    }

    /** The link went down. */
    method LinkDown()
      requires Valid()
      modifies this`effective, this`synced
      ensures Valid() && effective == map[] && !synced
    {
      effective, synced := map[], false;
    }

    /** The client object is replaced or dropped; the link signal follows later. */
    method SetClient(present: bool)
      requires Valid()
      modifies this`client, this`synced
      ensures Valid() && client == present && !synced
    {
      client, synced := present, false;
      forall s ensures InStep(s) {
        assert old(InStep(s));
      }
    }
  }

  /** The leases of one owner. */
  function Held<Owner>(leases: Leases<Owner>, owner: Owner): map<int, int> {
    if owner in leases then leases[owner] else map[]
  }

  /** The owner's lease of this stream, as far as it counts: zero when it does not. */
  function Share<Owner>(leases: Leases<Owner>, inactive: set<Owner>, owner: Owner, stream: int): int {
    if owner !in inactive then Rate(Held(leases, owner), stream) else 0
  }

  predicate Positive<Owner>(leases: Leases<Owner>) {
    forall o, s :: o in leases && s in leases[o] ==> leases[o][s] >= 1
  }

  lemma SharesAsked<Owner>(leases: Leases<Owner>, inactive: set<Owner>, stream: int, rate: int)
    requires Positive(leases)
    ensures rate in Asked(leases, inactive, stream) <==> rate != 0 && exists o :: Share(leases, inactive, o, stream) == rate
  {
    if rate in Asked(leases, inactive, stream) {
      var o :| o in leases && o !in inactive && stream in leases[o] && leases[o][stream] == rate;
      assert Share(leases, inactive, o, stream) == rate;
    }
  }

  /** A stream whose shares are all the same before and after wants the same rate. */
  lemma SameShares<Owner>(before: Leases<Owner>, after: Leases<Owner>, was: set<Owner>, now: set<Owner>, s: int)
    requires Positive(before) && Positive(after)
    requires forall o :: Share(before, was, o, s) == Share(after, now, o, s)
    ensures Desired(before, was, s) == Desired(after, now, s)
  {
    var x, y := Asked(before, was, s), Asked(after, now, s);
    forall r ensures r in x <==> r in y {
      SharesAsked(before, was, s, r);
      SharesAsked(after, now, s, r);
    }
    assert x == y;
  }

  // ---------- What the invariant means ----------

  /** In step, the cached map is exactly the positive wanted rates. */
  lemma MapDetermined<Owner>(leases: Leases<Owner>, inactive: set<Owner>, effective: map<int, int>, other: map<int, int>)
    requires forall s :: Rate(effective, s) == Desired(leases, inactive, s) == Rate(other, s)
    requires forall s :: s in effective ==> effective[s] >= 1
    requires forall s :: s in other ==> other[s] >= 1
    ensures effective == other
  {
    forall s
      ensures s in effective <==> s in other
      ensures s in effective ==> effective[s] == other[s]
    {
      assert Rate(effective, s) == Desired(leases, inactive, s) == Rate(other, s);
    }
  }

  /** The wanted rate is the largest active lease, and zero when there is none. */
  lemma DesiredIsMaximum<Owner>(leases: Leases<Owner>, inactive: set<Owner>, stream: int)
    requires Positive(leases)
    ensures forall o :: o in leases && o !in inactive && stream in leases[o] ==>
              leases[o][stream] <= Desired(leases, inactive, stream)
    ensures Desired(leases, inactive, stream) == 0
            || exists o :: o in leases && o !in inactive && stream in leases[o]
                           && leases[o][stream] == Desired(leases, inactive, stream)
    ensures Desired(leases, inactive, stream) == 0 <==>
            forall o :: o in leases && o !in inactive ==> stream !in leases[o]
  {
    var xs := Asked(leases, inactive, stream);
    assert forall o :: o in leases && o !in inactive && stream in leases[o] ==> leases[o][stream] in xs;
    if xs != {} {
      assert MaxOrZero(xs) in xs;
    }
  }
}
