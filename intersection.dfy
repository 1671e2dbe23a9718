/** The browser's IntersectionObserver, abstracted: the geometry (thresholds, root margins)
    is left to the browser, and what reaches a callback is, per observed target, a stream of
    entries each saying whether the target is intersecting. A callback's reaction to one entry
    is one of three shapes the scripts use. */
module Intersection {

  /** What a callback does with a target's class list on one entry. */
  datatype Reaction =
    | AddKeep(cls: string)  // add `cls` on an intersecting entry; keep observing
    | AddOnce(cls: string)  // add `cls` on an intersecting entry, then `unobserve` the target
    | Toggle(cls: string)   // add `cls` on an intersecting entry, remove it on any other
    | Rejected(cls: string) // `classList` refuses `cls`: each add or remove throws first

  /** One target as a callback sees it: its class list and whether it is still observed. */
  datatype Target = Target(classes: set<string>, observed: bool)

  /** The effect of one entry. An unobserved target receives no entries, so nothing happens;
      neither does anything when the class is refused, since the callback throws before it
      changes the class list or unobserves. */
  function Step(r: Reaction, t: Target, isIntersecting: bool): (u: Target)
    ensures !t.observed || r.Rejected? ==> u == t
    ensures forall c :: c != r.cls ==> (c in u.classes <==> c in t.classes)
    ensures t.observed && isIntersecting && !r.Rejected? ==> r.cls in u.classes
    ensures u.observed == (t.observed && !(r.AddOnce? && isIntersecting))
    ensures t.observed && !isIntersecting ==> (r.cls in u.classes <==> r.cls in t.classes && !r.Toggle?)
  {
    if !t.observed || r.Rejected? then t
    else if isIntersecting then
      Target(t.classes + {r.cls}, !r.AddOnce?)
    else if r.Toggle? then
      t.(classes := t.classes - {r.cls})
    else
      t
  }

  /** One entry of a callback batch: which target (by its index among the observed elements)
      and whether it is intersecting. */
  datatype Entry = Entry(target: nat, isIntersecting: bool)

  /** The `isIntersecting` of the entries about target `i`, in batch order. */
  function EventsFor(entries: seq<Entry>, i: nat): (r: seq<bool>)
    ensures |r| <= |entries|
  {
    if entries == [] then []
    else
      var last := entries[|entries| - 1];
      EventsFor(entries[..|entries| - 1], i) + if last.target == i then [last.isIntersecting] else []
  }

  /** The target after the entries `events`, oldest first: only the reaction's class can
      change, and an unobserved target or a refused class is left as it was. */
  function Run(r: Reaction, t: Target, events: seq<bool>): (u: Target)
    ensures forall c :: c != r.cls ==> (c in u.classes <==> c in t.classes)
    ensures !t.observed || r.Rejected? ==> u == t
  {
    if events == [] then t else Step(r, Run(r, t, events[..|events| - 1]), events[|events| - 1])
  }

  /** Add-and-keep (as in the scroll-reveal, stagger and timeline observers): the class is there
      exactly when it was there before or some entry was intersecting; nothing else changes and
      the target stays observed. */
  lemma {:induction false} RunAddKeep(cls: string, t: Target, events: seq<bool>)
    requires t.observed
    ensures var u := Run(AddKeep(cls), t, events);
      && u.observed
      && (cls in u.classes <==> cls in t.classes || true in events)
      && forall c :: c != cls ==> (c in u.classes <==> c in t.classes)
  {
    if events != [] {
      var front := events[..|events| - 1];
      RunAddKeep(cls, t, front);
      assert events == front + [events[|events| - 1]];
    }
  }

  /** Add-once, up to its first intersecting entry: the class is added and the target is
      unobserved exactly when some entry was intersecting. */
  lemma {:induction false} RunAddOnce(cls: string, t: Target, events: seq<bool>)
    requires t.observed
    ensures var u := Run(AddOnce(cls), t, events);
      && (u.observed <==> true !in events)
      && (cls in u.classes <==> cls in t.classes || true in events)
      && forall c :: c != cls ==> (c in u.classes <==> c in t.classes)
  {
    if events != [] {
      var front := events[..|events| - 1];
      RunAddOnce(cls, t, front);
      assert events == front + [events[|events| - 1]];
    }
  }

  /** Add-once: non-intersecting entries before the first intersecting one change nothing. */
  lemma {:induction false} AddOnceQuietUntilHit(cls: string, t: Target, events: seq<bool>)
    requires true !in events
    ensures Run(AddOnce(cls), t, events) == t
  {
    if events != [] {
      var front := events[..|events| - 1];
      assert true !in front by { assert forall k :: 0 <= k < |front| ==> front[k] == events[k]; }
      AddOnceQuietUntilHit(cls, t, front);
    }
  }

  /** Add-once: once an intersecting entry has arrived, later entries never change the target. */
  lemma {:induction false} AddOnceFrozen(cls: string, t: Target, events: seq<bool>, later: seq<bool>)
    requires t.observed && true in events
    ensures Run(AddOnce(cls), t, events + later) == Run(AddOnce(cls), t, events)
    decreases |later|
  {
    if later != [] {
      var all := events + later;
      var front := later[..|later| - 1];
      assert all[..|all| - 1] == events + front;
      AddOnceFrozen(cls, t, events, front);
      RunAddOnce(cls, t, events);
    } else {
      assert events + later == events;
    }
  }

  /** Toggle (repeatable): after at least one entry, the class is there exactly when the most
      recent entry was intersecting, and the target stays observed. */
  lemma {:induction false} RunToggle(cls: string, t: Target, events: seq<bool>)
    requires t.observed
    ensures var u := Run(Toggle(cls), t, events);
      && u.observed
      && (events != [] ==> (cls in u.classes <==> events[|events| - 1]))
      && (events == [] ==> u == t)
      && forall c :: c != cls ==> (c in u.classes <==> c in t.classes)
  {
    if events != [] {
      RunToggle(cls, t, events[..|events| - 1]);
    }
  }

  /** A refused class: no entry changes the target. A throw also ends the batch's `forEach`,
      but every later entry of that batch would have changed nothing either. */
  lemma {:induction false} RunRejected(cls: string, t: Target, events: seq<bool>)
    ensures Run(Rejected(cls), t, events) == t
  {
    if events != [] {
      RunRejected(cls, t, events[..|events| - 1]);
    }
  }

  /** How many of `events` are intersecting. */
  function Hits(events: seq<bool>): nat {
    if events == [] then 0 else Hits(events[..|events| - 1]) + if events[|events| - 1] then 1 else 0
  }

  /** One more entry in a batch changes only the target it is about, by one `Step`. */
  lemma RunStep(r: Reaction, t: Target, entries: seq<Entry>, k: nat, i: nat)
    requires k < |entries|
    ensures Run(r, t, EventsFor(entries[..k + 1], i)) ==
      var before := Run(r, t, EventsFor(entries[..k], i));
      if entries[k].target == i then Step(r, before, entries[k].isIntersecting) else before
  {
    assert entries[..k + 1][..k] == entries[..k];
    var events := EventsFor(entries[..k], i);
    if entries[k].target == i {
      assert (events + [entries[k].isIntersecting])[..|events|] == events;
    } else {
      assert events + [] == events;
    }
  }

  /** An `IntersectionObserver` whose callback reacts to every entry with `reaction`, together
      with the elements it was given to observe. */
  class Observer {
    const reaction: Reaction
    var targets: seq<Target>

    /** `new IntersectionObserver(callback)` followed by `observe` on the elements `watch`
        selects. */
    constructor (reaction: Reaction, classes: seq<set<string>>, watch: seq<bool>)
      requires |watch| == |classes|
      ensures this.reaction == reaction && |targets| == |classes|
      ensures forall i :: 0 <= i < |targets| ==> targets[i] == Target(classes[i], watch[i])
    {
      this.reaction := reaction;
      targets := seq(|classes|, i requires 0 <= i < |classes| => Target(classes[i], watch[i]));
    }

    /** One callback batch. The browser reports only targets observed when the batch was
        taken, and the callback handles every entry of the batch in order, so each target goes
        through the entries about it. */
    method Callback(entries: seq<Entry>)
      requires forall k :: 0 <= k < |entries| ==> entries[k].target < |targets| && targets[entries[k].target].observed
      modifies this`targets
      ensures |targets| == |old(targets)|
      ensures forall i :: 0 <= i < |targets| ==> targets[i] == Run(reaction, old(targets)[i], EventsFor(entries, i))
    {
      var k := 0;
      while k < |entries|
        invariant 0 <= k <= |entries|
        invariant |targets| == |old(targets)|
        invariant forall i :: 0 <= i < |targets| ==> targets[i] == Run(reaction, old(targets)[i], EventsFor(entries[..k], i))
      {
        var e := entries[k];
        forall i | 0 <= i < |targets|
          ensures Run(reaction, old(targets)[i], EventsFor(entries[..k + 1], i)) ==
            if i == e.target then Step(reaction, targets[i], e.isIntersecting) else targets[i]
        {
          RunStep(reaction, old(targets)[i], entries, k, i);
        }
        targets := targets[e.target := Step(reaction, targets[e.target], e.isIntersecting)];
        k := k + 1;
      }
      assert entries[..k] == entries;
    }
  }
}
