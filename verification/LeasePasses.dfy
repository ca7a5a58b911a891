/** What a whole pass of expire_leases or release_session leaves behind. */
module LeasePasses {
  import opened FixedWidth
  import opened Results
  import opened Sequences
  import opened Leases
  import opened LeaseInvariants

  /** The leases that a pass keeps. */
  function Kept(entries: seq<Lease>, sel: Selector): seq<Lease> {
    if entries == [] then []
    else if Selected(sel, entries[0]) then Kept(entries[1..], sel)
    else [entries[0]] + Kept(entries[1..], sel)
  }

  lemma {:induction false} KeptMembers(entries: seq<Lease>, sel: Selector, lease: Lease)
    ensures lease in Kept(entries, sel) <==> lease in entries && !Selected(sel, lease)
  {
    if entries != [] {
      KeptMembers(entries[1..], sel, lease);
    }
  }

  /** An order in which the table may yield its resources. */
  ghost predicate Enumerates(keys: seq<u32>, leases: map<u32, seq<Lease>>) {
    Distinct(keys) && forall k :: k in keys <==> k in leases
  }

  // ---------------------------------------------------------------- the table

  lemma EndEntries(c: Config, s: State, resourceId: u32, i: nat)
    requires MotionReady(c, s) && resourceId in s.leases && i < |s.leases[resourceId]|
    ensures var next := EndLease(c, s, resourceId, i);
            Entries(next, resourceId) == Erased(s.leases[resourceId], i) &&
            (resourceId in next.leases <==> Erased(s.leases[resourceId], i) != []) &&
            forall other: u32 | other != resourceId ::
              (other in next.leases <==> other in s.leases) && Entries(next, other) == Entries(s, other)
  {
  }

  lemma KeptStep(entries: seq<Lease>, i: nat, sel: Selector)
    requires i < |entries|
    ensures if Selected(sel, entries[i]) then
              entries[..i] + Kept(entries[i..], sel) == Erased(entries, i)[..i] + Kept(Erased(entries, i)[i..], sel)
            else entries[..i] + Kept(entries[i..], sel) == entries[..i + 1] + Kept(entries[i + 1..], sel)
  {
    assert entries[i..][0] == entries[i] && entries[i..][1..] == entries[i + 1..];
    assert Erased(entries, i)[..i] == entries[..i] && Erased(entries, i)[i..] == entries[i + 1..];
    assert entries[..i + 1] == entries[..i] + [entries[i]];
  }

  lemma {:induction false} EndSelectedEntries(c: Config, s: State, resourceId: u32, sel: Selector, i: nat)
    requires MotionReady(c, s) && i <= |Entries(s, resourceId)|
    requires resourceId in s.leases ==> s.leases[resourceId] != []
    ensures var next := EndSelected(c, s, resourceId, sel, i);
            var entries := Entries(s, resourceId);
            Entries(next, resourceId) == entries[..i] + Kept(entries[i..], sel) &&
            (resourceId in next.leases <==> Entries(next, resourceId) != []) &&
            forall other: u32 | other != resourceId ::
              (other in next.leases <==> other in s.leases) && Entries(next, other) == Entries(s, other)
    decreases |Entries(s, resourceId)| - i
  {
    var entries := Entries(s, resourceId);
    if i == |entries| {
      assert entries[..i] + Kept(entries[i..], sel) == entries;
    } else {
      KeptStep(entries, i, sel);
      if Selected(sel, entries[i]) {
        EndLeaseReady(c, s, resourceId, i);
        EndEntries(c, s, resourceId, i);
        EndSelectedEntries(c, EndLease(c, s, resourceId, i), resourceId, sel, i);
      } else {
        EndSelectedEntries(c, s, resourceId, sel, i + 1);
      }
    }
  }

  lemma {:induction false} EndAllEntries(c: Config, s: State, keys: seq<u32>, sel: Selector, resourceId: u32)
    requires MotionReady(c, s) && Distinct(keys) && forall k | k in s.leases :: s.leases[k] != []
    ensures var next := EndAll(c, s, keys, sel);
            Entries(next, resourceId) ==
              (if resourceId in keys then Kept(Entries(s, resourceId), sel) else Entries(s, resourceId)) &&
            (resourceId in next.leases <==> Entries(next, resourceId) != [])
    decreases keys
  {
    if keys != [] {
      var entries := Entries(s, keys[0]);
      EndSelectedEntries(c, s, keys[0], sel, 0);
      assert entries[..0] + Kept(entries[0..], sel) == Kept(entries, sel);
      var middle := EndSelected(c, s, keys[0], sel, 0);
      forall k | k in middle.leases
        ensures middle.leases[k] != []
      {
        assert k != keys[0] ==> Entries(middle, k) == Entries(s, k);
      }
      EndAllEntries(c, middle, keys[1..], sel, resourceId);
    }
  }

  /** A pass keeps exactly the leases it does not select: after expiry every lease still runs, and none that was
      running is lost; after a session's release the session holds nothing. */
  lemma PassIsExact(c: Config, s: State, keys: seq<u32>, sel: Selector, resourceId: u32)
    requires Inv(c, s) && MotionReady(c, s) && Enumerates(keys, s.leases)
    ensures Entries(EndAll(c, s, keys, sel), resourceId) == Kept(Entries(s, resourceId), sel)
    ensures forall lease :: lease in Entries(EndAll(c, s, keys, sel), resourceId) <==>
              lease in Entries(s, resourceId) &&
              match sel
              case ExpiredAt(now) => now < lease.expiresAt
              case OfSession(session) => lease.owner != session
  {
    EndAllEntries(c, s, keys, sel, resourceId);
    forall lease
      ensures lease in Kept(Entries(s, resourceId), sel) <==>
                lease in Entries(s, resourceId) && !Selected(sel, lease)
    {
      KeptMembers(Entries(s, resourceId), sel, lease);
    }
  }

  // ---------------------------------------------------------------- objects, pins and motion

  /** Steps of a pass only remove objects, only lower output pins, and never start motion. */
  ghost predicate Winds(s: State, t: State) {
    && (forall id | id in t.gpio :: id in s.gpio && t.gpio[id] == s.gpio[id])
    && t.pins.Keys == s.pins.Keys
    && (forall p | p in s.pins :: t.pins[p] == s.pins[p] || t.pins[p] == Pin(true, false))
    && (Moving(t.motion) ==> t.motion == s.motion)
  }

  lemma EndWinds(c: Config, s: State, resourceId: u32, i: nat)
    requires Ending(c, s, resourceId, i) && MotionReady(c, s)
    ensures Winds(s, EndLease(c, s, resourceId, i))
  {
    if c.motionBackend {
      StopMotionStops(s.motion);
    }
  }

  lemma WindsOn(a: State, b: State, d: State)
    requires Winds(a, b) && Winds(b, d)
    ensures Winds(a, d)
  {
  }

  /** An object is gone, its pin low if it drove one. */
  ghost predicate Cleaned(c: Config, s: State, t: State, id: u32)
    requires id in s.gpio
  {
    id !in t.gpio &&
    (c.gpioBackend && s.gpio[id].output ==>
      s.gpio[id].pin in t.pins && t.pins[s.gpio[id].pin] == Pin(true, false))
  }

  lemma CleanedStays(c: Config, s: State, t: State, u: State, id: u32)
    requires id in s.gpio && Cleaned(c, s, t, id) && Winds(t, u)
    ensures Cleaned(c, s, u, id)
  {
  }

  /** What ending one lease does to an object. */
  lemma EndObject(c: Config, s: State, resourceId: u32, i: nat, id: u32)
    requires Ending(c, s, resourceId, i) && MotionReady(c, s) && id in s.gpio
    ensures var next := EndLease(c, s, resourceId, i);
            if s.gpio[id].resourceId == resourceId then Cleaned(c, s, next, id)
            else id in next.gpio && next.gpio[id] == s.gpio[id]
  {
    var o := s.gpio[id];
    assert Belongs(s, o.resourceId, o.owner);
    if o.resourceId == resourceId {
      assert GpioOf(o, resourceId, s.leases[resourceId][i].owner);
      assert o.output ==> DrivenBy(s, o.pin, resourceId, s.leases[resourceId][i].owner);
    } else {
      assert !GpioOf(o, resourceId, s.leases[resourceId][i].owner);
    }
  }

  /** Does a pass end a lease of the resource? */
  ghost predicate Ends(s: State, resourceId: u32, sel: Selector, from: nat) {
    exists i | from <= i < |Entries(s, resourceId)| :: Selected(sel, Entries(s, resourceId)[i])
  }

  lemma {:induction false} EndSelectedObject(c: Config, s: State, resourceId: u32, sel: Selector, i: nat, id: u32)
    requires Inv(c, s) && MotionReady(c, s) && id in s.gpio
    ensures var next := EndSelected(c, s, resourceId, sel, i);
            Winds(s, next) &&
            if s.gpio[id].resourceId == resourceId && Ends(s, resourceId, sel, i) then Cleaned(c, s, next, id)
            else id in next.gpio && next.gpio[id] == s.gpio[id]
    decreases |Entries(s, resourceId)| - i
  {
    if i < |Entries(s, resourceId)| {
      if Selected(sel, s.leases[resourceId][i]) {
        var ended := EndLease(c, s, resourceId, i);
        EndLeaseReady(c, s, resourceId, i);
        EndKeepsInv(c, s, resourceId, i);
        EndWinds(c, s, resourceId, i);
        EndObject(c, s, resourceId, i, id);
        RestWinds(c, ended, resourceId, sel, i);
        WindsOn(s, ended, EndSelected(c, ended, resourceId, sel, i));
        if s.gpio[id].resourceId == resourceId {
          CleanedStays(c, s, ended, EndSelected(c, ended, resourceId, sel, i), id);
        } else {
          EndSelectedObject(c, ended, resourceId, sel, i, id);
        }
      } else {
        EndSelectedObject(c, s, resourceId, sel, i + 1, id);
      }
    }
  }

  lemma {:induction false} RestWinds(c: Config, s: State, resourceId: u32, sel: Selector, i: nat)
    requires Inv(c, s) && MotionReady(c, s)
    ensures Winds(s, EndSelected(c, s, resourceId, sel, i))
    decreases |Entries(s, resourceId)| - i
  {
    if i < |Entries(s, resourceId)| {
      if Selected(sel, s.leases[resourceId][i]) {
        var ended := EndLease(c, s, resourceId, i);
        EndLeaseReady(c, s, resourceId, i);
        EndKeepsInv(c, s, resourceId, i);
        EndWinds(c, s, resourceId, i);
        RestWinds(c, ended, resourceId, sel, i);
        WindsOn(s, ended, EndSelected(c, ended, resourceId, sel, i));
      } else {
        RestWinds(c, s, resourceId, sel, i + 1);
      }
    }
  }

  lemma {:induction false} PassWinds(c: Config, s: State, keys: seq<u32>, sel: Selector)
    requires Inv(c, s) && MotionReady(c, s)
    ensures Winds(s, EndAll(c, s, keys, sel))
    decreases keys
  {
    if keys != [] {
      var middle := EndSelected(c, s, keys[0], sel, 0);
      EndSelectedKeepsInv(c, s, keys[0], sel, 0);
      RestWinds(c, s, keys[0], sel, 0);
      PassWinds(c, middle, keys[1..], sel);
      WindsOn(s, middle, EndAll(c, s, keys, sel));
    }
  }

  lemma {:induction false} PassObject(c: Config, s: State, keys: seq<u32>, sel: Selector, id: u32)
    requires Inv(c, s) && MotionReady(c, s) && Distinct(keys) && id in s.gpio
    ensures var next := EndAll(c, s, keys, sel);
            if s.gpio[id].resourceId in keys && Ends(s, s.gpio[id].resourceId, sel, 0) then Cleaned(c, s, next, id)
            else id in next.gpio && next.gpio[id] == s.gpio[id]
    decreases keys
  {
    if keys != [] {
      var middle := EndSelected(c, s, keys[0], sel, 0);
      EndSelectedKeepsInv(c, s, keys[0], sel, 0);
      EndSelectedObject(c, s, keys[0], sel, 0, id);
      EndSelectedEntries(c, s, keys[0], sel, 0);
      if id in middle.gpio {
        PassObject(c, middle, keys[1..], sel, id);
      } else {
        PassWinds(c, middle, keys[1..], sel);
        CleanedStays(c, s, middle, EndAll(c, s, keys, sel), id);
      }
    }
  }

  /** A pass removes exactly the objects on resources one of whose leases it ends, and leaves their pins low. */
  lemma PassCleansObjects(c: Config, s: State, keys: seq<u32>, sel: Selector, id: u32)
    requires Inv(c, s) && MotionReady(c, s) && Enumerates(keys, s.leases) && id in s.gpio
    ensures var next := EndAll(c, s, keys, sel);
            if Ends(s, s.gpio[id].resourceId, sel, 0) then Cleaned(c, s, next, id)
            else id in next.gpio && next.gpio[id] == s.gpio[id]
  {
    PassObject(c, s, keys, sel, id);
  }

  lemma {:induction false} EndSelectedStops(c: Config, s: State, resourceId: u32, sel: Selector, i: nat)
    requires Inv(c, s) && MotionReady(c, s) && c.motionBackend && IsAxis(c, resourceId)
    requires Ends(s, resourceId, sel, i)
    ensures !Moving(EndSelected(c, s, resourceId, sel, i).motion)
    decreases |Entries(s, resourceId)| - i
  {
    if Selected(sel, s.leases[resourceId][i]) {
      var ended := EndLease(c, s, resourceId, i);
      EndLeaseReady(c, s, resourceId, i);
      EndKeepsInv(c, s, resourceId, i);
      EndStopsMotion(c, s, resourceId, i);
      RestWinds(c, ended, resourceId, sel, i);
    } else {
      EndSelectedStops(c, s, resourceId, sel, i + 1);
    }
  }

  /** A pass that ends a lease on an axis leaves no motion under way. */
  lemma {:induction false} PassStopsMotion(c: Config, s: State, keys: seq<u32>, sel: Selector, resourceId: u32)
    requires Inv(c, s) && MotionReady(c, s) && Distinct(keys) && resourceId in keys
    requires c.motionBackend && IsAxis(c, resourceId) && Ends(s, resourceId, sel, 0)
    ensures !Moving(EndAll(c, s, keys, sel).motion)
    decreases keys
  {
    var middle := EndSelected(c, s, keys[0], sel, 0);
    EndSelectedKeepsInv(c, s, keys[0], sel, 0);
    if keys[0] == resourceId {
      EndSelectedStops(c, s, resourceId, sel, 0);
      PassWinds(c, middle, keys[1..], sel);
    } else {
      EndSelectedEntries(c, s, keys[0], sel, 0);
      PassStopsMotion(c, middle, keys[1..], sel, resourceId);
    }
  }
}
