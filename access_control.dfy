/**
 * The access-decision-and-notification engine of biometrical.py.
 *
 * An `AccessControlSystem` keeps an ordered, mutable registry of observers.
 * `ProcessAccess` decides allow/deny by a membership test of the user in the
 * allow-list, builds an `AccessEvent` and hands it to every registered
 * observer in registration order. The two concrete observers print: an
 * `AdminNotifier` prints an alert when access was refused, a `Logger` prints
 * every event. Printing is modelled as appending abstract `Line`s to a
 * `Console` object that the caller passes in.
 */
module AccessControl {

  /** A user. `User` defines no equality of its own, so two users are equal
      only when they are the same object: Dafny's reference equality. The
      biometric data a user carries plays no part in any decision. */
  class User {
    const name: string

    constructor (name: string)
      ensures this.name == name
    {
      this.name := name;
    }
  }

  /** The record of one access attempt: who tried, and whether it succeeded. */
  datatype AccessEvent = AccessEvent(user: User, success: bool)

  /** The two concrete observers. Observers are compared by identity; `tag`
      stands for that identity, so two values with the same kind and tag are
      the same observer object. */
  datatype Observer = AdminNotifier(tag: nat) | Logger(tag: nat)
  {
    /** What `update` prints for `e`. An administrator is alerted, naming the
        user, exactly when the attempt failed; a logger records every event. */
    function Emitted(e: AccessEvent): (r: seq<Line>)
      ensures |r| <= 1
      ensures AdminNotifier? ==> (r == [Alert(e.user)] <==> !e.success) && (r == [] <==> e.success)
      ensures Logger? ==> r == [Log(e)]
    {
      match this
      case AdminNotifier(_) => if !e.success then [Alert(e.user)] else []
      case Logger(_) => [Log(e)]
    }

    /** `update`: print what `Emitted` says, and nothing else. */
    method Update(e: AccessEvent, out: Console)
      modifies out
      ensures out.lines == old(out.lines) + Emitted(e)
    {
      match this
      case AdminNotifier(_) =>
        if !e.success {
          out.lines := out.lines + [Alert(e.user)];
        }
      case Logger(_) =>
        out.lines := out.lines + [Log(e)];
    }
  }

  /** One printed line, kept abstract: an administrator alert naming a user,
      or a log entry carrying the whole event. */
  datatype Line = Alert(user: User) | Log(event: AccessEvent)

  /** Standard output, the one sink both observers write to. */
  class Console {
    var lines: seq<Line>

    constructor ()
      ensures lines == []
    {
      lines := [];
    }
  }

  /** The exception `list.remove` raises when the value is absent. */
  datatype Error = ValueError

  datatype Option<T> = None | Some(value: T)

  datatype Result<T> = Success(value: T) | Failure(error: Error)

  /** The event `process_access` builds: it names the very user that was
      presented, and it is a success exactly when that user (the same object)
      occurs in the allow-list. */
  function Decide(user: User, allowed: seq<User>): (e: AccessEvent)
    ensures e.user == user
    ensures e.success <==> exists k :: 0 <= k < |allowed| && allowed[k] == user
  {
    if user in allowed then AccessEvent(user, true) else AccessEvent(user, false)
  }

  /** Everything printed when `e` is dispatched to `obs`, one observer after
      the other, in order. */
  function Dispatch(obs: seq<Observer>, e: AccessEvent): (r: seq<Line>)
    ensures |r| <= |obs|
  {
    if obs == [] then [] else obs[0].Emitted(e) + Dispatch(obs[1..], e)
  }

  /** The position of the first entry of `s` equal to `o`, as `list.remove`
      searches for it: absent exactly when `o` does not occur. */
  function IndexOf(s: seq<Observer>, o: Observer): (r: Option<nat>)
    ensures r.None? <==> o !in s
    ensures r.Some? ==> r.value < |s| && s[r.value] == o
    ensures r.Some? ==> forall k :: 0 <= k < r.value ==> s[k] != o
  {
    if s == [] then None
    else if s[0] == o then Some(0)
    else
      var rest := IndexOf(s[1..], o);
      if rest.None? then None
      else Some(rest.value + 1)
  }

  /** `list.remove(o)` on the value `s`: fails with `ValueError` when `o` is
      absent, otherwise drops exactly one occurrence of `o`, one entry in all. */
  function Removed(s: seq<Observer>, o: Observer): (r: Result<seq<Observer>>)
    ensures r.Failure? <==> o !in s
    ensures r.Failure? ==> r.error == ValueError
    ensures r.Success? ==> |r.value| == |s| - 1 && multiset(r.value) == multiset(s) - multiset{o}
  {
    match IndexOf(s, o)
    case None => Failure(ValueError)
    case Some(i) =>
      assert s == s[..i] + [s[i]] + s[i + 1..];
      Success(s[..i] + s[i + 1..])
  }

  /** The access-control system: its only state is the observer registry. */
  class AccessControlSystem {
    var observers: seq<Observer>

    constructor ()
      ensures observers == []
    {
      observers := [];
    }

    /** `add_observer`: append, keeping every earlier entry where it was. */
    method AddObserver(o: Observer)
      modifies this
      ensures observers == old(observers) + [o]
    {
      observers := observers + [o];
    }

    /** `remove_observer`: `list.remove` on the registry, in place. The first
        entry equal to `o` is deleted; when there is none, `ValueError` is
        raised and the registry is left as it was. */
    method RemoveObserver(o: Observer) returns (r: Result<()>)
      modifies this
      ensures r.Failure? <==> o !in old(observers)
      ensures r.Failure? ==> r.error == ValueError && observers == old(observers)
      ensures r.Success? ==> observers == Removed(old(observers), o).value
    {
      match Removed(observers, o)
      case Failure(err) =>
        r := Failure(err);
      case Success(rest) =>
        observers := rest;
        r := Success(());
    }

    /** `notify_observers`: call `update` on every entry, in registry order.
        The registry is not changed; only `out` is written. */
    method NotifyObservers(e: AccessEvent, out: Console)
      modifies out
      ensures out.lines == old(out.lines) + Dispatch(observers, e)
    {
      var i := 0;
      while i < |observers|
        invariant 0 <= i <= |observers|
        invariant out.lines == old(out.lines) + Dispatch(observers[..i], e)
      {
        observers[i].Update(e, out);
        DispatchAppend(observers[..i], [observers[i]], e);
        assert observers[..i + 1] == observers[..i] + [observers[i]];
        i := i + 1;
      }
      assert observers[..i] == observers;
    }

    /** `process_access`: decide by membership, then notify every observer
        of the resulting event. Returns nothing and leaves the registry
        untouched; what is printed is the whole effect. */
    method ProcessAccess(user: User, allowed: seq<User>, out: Console)
      modifies out
      ensures observers == old(observers)
      ensures out.lines == old(out.lines) + Dispatch(observers, Decide(user, allowed))
    {
      var event;
      if user in allowed {
        event := AccessEvent(user, true);
      } else {
        event := AccessEvent(user, false);
      }
      NotifyObservers(event, out);
    }
  }

  /** Number of `Logger` entries in a registry, counting repeats. */
  function Loggers(obs: seq<Observer>): nat
  {
    if obs == [] then 0 else (if obs[0].Logger? then 1 else 0) + Loggers(obs[1..])
  }

  /** Number of `AdminNotifier` entries in a registry, counting repeats. */
  function Admins(obs: seq<Observer>): nat
  {
    if obs == [] then 0 else (if obs[0].AdminNotifier? then 1 else 0) + Admins(obs[1..])
  }

  /** Dispatch follows registration order: what the observers registered
      first print comes before what the later ones print. */
  lemma {:induction false} DispatchAppend(a: seq<Observer>, b: seq<Observer>, e: AccessEvent)
    ensures Dispatch(a + b, e) == Dispatch(a, e) + Dispatch(b, e)
  {
    if a == [] {
      assert a + b == b;
    } else {
      assert (a + b)[1..] == a[1..] + b;
      DispatchAppend(a[1..], b, e);
    }
  }

  /** Every entry is notified once per event: each `Logger` entry logs the
      event once, each `AdminNotifier` entry alerts once when the attempt
      failed and never when it succeeded, and nothing else is printed. */
  lemma {:induction false} DispatchCounts(obs: seq<Observer>, e: AccessEvent)
    ensures multiset(Dispatch(obs, e))[Log(e)] == Loggers(obs)
    ensures multiset(Dispatch(obs, e))[Alert(e.user)] == if e.success then 0 else Admins(obs)
    ensures |Dispatch(obs, e)| == Loggers(obs) + if e.success then 0 else Admins(obs)
  {
    if obs != [] {
      DispatchCounts(obs[1..], e);
      assert Dispatch(obs, e) == obs[0].Emitted(e) + Dispatch(obs[1..], e);
    }
  }

  /** The end-to-end decision: presenting `user` against `allowed` prints an
      alert naming the user exactly when the user is not in the allow-list and
      an administrator is registered, and logs the event exactly when a logger
      is registered. */
  lemma {:induction false} DispatchedDecision(obs: seq<Observer>, user: User, allowed: seq<User>)
    ensures Alert(user) in Dispatch(obs, Decide(user, allowed)) <==> user !in allowed && Admins(obs) > 0
    ensures Log(AccessEvent(user, user in allowed)) in Dispatch(obs, Decide(user, allowed)) <==> Loggers(obs) > 0
  {
    DispatchCounts(obs, Decide(user, allowed));
  }

  /** Appending entries does not move the first occurrence of an observer
      that was already registered. */
  lemma {:induction false} IndexOfAppend(s: seq<Observer>, t: seq<Observer>, o: Observer)
    requires o in s
    ensures IndexOf(s + t, o) == IndexOf(s, o)
  {
    if s[0] != o {
      assert (s + t)[1..] == s[1..] + t;
      IndexOfAppend(s[1..], t, o);
    }
  }

  /** Registering an observer that was absent and then removing it restores
      the registry exactly. */
  lemma AddThenRemove(s: seq<Observer>, o: Observer)
    requires o !in s
    ensures Removed(s + [o], o) == Success(s)
  {
    assert (s + [o])[..|s|] + (s + [o])[|s| + 1..] == s;
  }

  /** Removal hits the first occurrence: when `o` is already registered and is
      added again, removing it drops the earlier copy and keeps the new one
      at the end. */
  lemma RemoveFindsEarlierCopy(s: seq<Observer>, o: Observer)
    requires o in s
    ensures Removed(s + [o], o) == Success(Removed(s, o).value + [o])
  {
    var i := IndexOf(s, o).value;
    IndexOfAppend(s, [o], o);
    assert (s + [o])[..i] == s[..i];
    assert (s + [o])[..i] + (s + [o])[i + 1..] == s[..i] + s[i + 1..] + [o];
  }

  /** Removal keeps everything else in place: entries before the first
      occurrence `i` stay where they were, and every entry after it moves up
      by one. */
  lemma RemovedKeepsOrder(s: seq<Observer>, o: Observer, i: nat)
    requires IndexOf(s, o) == Some(i)
    ensures Removed(s, o).Success?
    ensures forall j :: 0 <= j < i ==> Removed(s, o).value[j] == s[j]
    ensures forall j :: i <= j < |s| - 1 ==> Removed(s, o).value[j] == s[j + 1]
  {
  }
}
