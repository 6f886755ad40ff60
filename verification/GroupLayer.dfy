/** The group table and the pass-up queue in memory, updated in place (aps_bind.c, aps_main.c). */
module GroupLayers {
  import opened Prelude
  import opened GroupModel
  import opened RingBuffers

  class GroupLayer {
    const groups: array<Group>
    var nGroups: nat
    const passUpQ: RingBuffer<Msg>
    var active: Option<Msg>
    var handle: nat
    var activations: nat

    /** What was passed up, and which messages were freed without that. */
    var delivered: seq<(Msg, U8)>
    var dropped: seq<Msg>
    ghost var accepted: seq<Msg>
    ghost var passed: seq<Passed>

    ghost predicate Valid()
      reads this, passUpQ, passUpQ.ring
    {
      && nGroups <= groups.Length == GROUPS
      && passUpQ.Valid() && passUpQ.ring.Length == QUEUE
    }

    ghost function Table(): seq<Group>
      requires nGroups <= groups.Length
      reads this, groups
    {
      groups[..nGroups]
    }

    ghost function Now(): State
      requires nGroups <= groups.Length
      reads this, groups, passUpQ
    {
      State(Table(), active, handle, passUpQ.contents, activations, delivered, accepted, passed, dropped)
    }

    constructor ()
      ensures Valid() && fresh(groups) && fresh(passUpQ) && fresh(passUpQ.ring) && Inv(Now()) && Going(Now())
    {
      groups := new Group[GROUPS](_ => Group(0, []));
      passUpQ := new RingBuffer(QUEUE, Msg(0, 0));
      nGroups, active, handle, activations := 0, None, 0, 0;
      delivered, dropped, accepted, passed := [], [], [], [];
    }

    /** The search for a group that both operations start with. */
    method Find(addr: U16) returns (g: nat)
      requires Valid()
      ensures g == FindGroup(Table(), addr, 0)
    {
      g := 0;
      while g < nGroups && groups[g].addr != addr
        invariant g <= nGroups
        invariant forall k :: 0 <= k < g ==> groups[k].addr != addr
      {
        g := g + 1;
      }
    }

    /** The search for an endpoint in a group. */
    method HasEndpoint(g: nat, endpoint: U8) returns (yes: bool)
      requires g < groups.Length
      ensures yes <==> endpoint in groups[g].endpoints
    {
      var j := 0;
      while j < |groups[g].endpoints|
        invariant j <= |groups[g].endpoints|
        invariant endpoint !in groups[g].endpoints[..j]
      {
        if groups[g].endpoints[j] == endpoint {
          return true;
        }
        j := j + 1;
      }
      yes := false;
    }

    /** zb_apsme_add_group_request. */
    method AddGroupRequest(addr: U16, endpoint: U8) returns (status: AddStatus)
      requires Valid()
      modifies this`nGroups, groups
      ensures Valid() && (Table(), status) == AddGroup(old(Table()), addr, endpoint)
    {
      var g := Find(addr);
      status := Added;
      if g < nGroups {
        var known := HasEndpoint(g, endpoint);
        if !known {
          if |groups[g].endpoints| < ENDPOINTS {
            groups[g] := groups[g].(endpoints := groups[g].endpoints + [endpoint]);
            assert Table() == AddGroup(old(Table()), addr, endpoint).0;
          } else {
            status := TableFull;
          }
        }
      } else if g < GROUPS {
        groups[g] := Group(addr, [endpoint]);
        nGroups := nGroups + 1;
        assert Table() == old(Table()) + [Group(addr, [endpoint])];
      } else {
        status := TableFull;
      }
    }

    /** zb_aps_pass_up_group_buf. `granted` is the outcome of the request for the first activation. */
    method PassUpGroupBuf(m: Msg, granted: bool)
      requires Valid()
      modifies this, passUpQ, passUpQ.ring
      ensures Valid() && Now() == Arrive(old(Now()), m, granted) && Arrived(old(Now()), m, granted, Now())
    {
      if passUpQ.IsFull() {
        dropped := dropped + [m];
      } else {
        accepted := accepted + [m];
        if active.None? {
          active, handle := Some(m), 0;
          if granted {
            activations := activations + 1;
          }
        } else {
          passUpQ.Put(m);
        }
      }
    }

    /** zb_aps_pass_group_msg_up. `granted` is the outcome of the request for the next activation, if
        there is one. */
    method PassGroupMsgUp(granted: bool)
      requires Valid() && active.Some? && activations > 0
      modifies this, passUpQ
      ensures Valid() && Now() == PassUp(old(Now()), granted)
    {
      var g := Find(active.value.addr);
      if g == nGroups || handle >= |groups[g].endpoints| {
        FinishMessage(granted);
      } else {
        delivered := delivered + [(active.value, groups[g].endpoints[handle])];
        handle := handle + 1;
        activations := activations - 1;
        Reschedule(granted);
      }
    }

    /** Its branch for a message that is through. */
    method FinishMessage(granted: bool)
      requires Valid() && active.Some? && activations > 0 && handle >= |EndpointsOf(Table(), active.value.addr)|
      modifies this, passUpQ
      ensures Valid() && Now() == PassUp(old(Now()), granted)
    {
      passed := passed + [Passed(active.value, EndpointsOf(Table(), active.value.addr))];
      activations := activations - 1;
      if !passUpQ.IsEmpty() {
        var next := passUpQ.Get();
        active, handle := Some(next), 0;
        passUpQ.FlushGet();
        Reschedule(granted);
      } else {
        active := None;
      }
    }

    method Reschedule(granted: bool)
      modifies this`activations
      ensures activations == old(activations) + if granted then 1 else 0
    {
      if granted {
        activations := activations + 1;
      }
    }
  }
}
