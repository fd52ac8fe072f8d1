# Access control with observer notification

This project models the access-decision-and-notification engine of
`biometrical.py`, with proofs about it. An `AccessControlSystem` holds an ordered,
mutable registry of observers. `process_access(user, allowed_users)` decides
whether the user may enter with the membership test `user in allowed_users`.
It then builds an `AccessEvent(user, success)` and calls `update` on every
registered observer in registration order. Two observers exist:
`AdminNotifier` prints an alert naming the user when access was refused, and
`Logger` prints every event.

Everything is in one module, `AccessControl` (`access_control.dfy`):

- `User` is a class, because Python compares users by object identity (`User`
  has no `__eq__`), and that is Dafny's reference equality.
- `AccessEvent` is a datatype `AccessEvent(user, success)`.
- The observers are a closed datatype `AdminNotifier(tag) | Logger(tag)`.
  Python compares observer objects by identity, and `tag` stands for that
  identity.
- Printing is modelled as appending an abstract `Line` to a `Console` object
  that the caller passes in. A line is `Alert(user)` or `Log(event)`.
- `AccessControlSystem` is a class whose one field, `observers: seq<Observer>`,
  its methods update in place.
- The pure specification functions are `Decide` (the event built),
  `Observer.Emitted` (what one `update` prints), `Dispatch` (what one
  notification round prints), and `IndexOf` and `Removed` (what `list.remove`
  does to a list value).

Behaviour of the code worth noting:

- `remove_observer` uses `list.remove`, which raises `ValueError` when the
  observer is not registered (biometrical.py:74). It is not a silent no-op.
  `RemoveObserver` returns `Failure(ValueError)` and leaves the registry
  unchanged.
- `process_access` returns `None` (biometrical.py:81-89). It does not return
  the event.
- Users are compared by identity: `user in allowed_users` falls back to
  object identity because `User` defines no `__eq__` (biometrical.py:17-25,
  83).
- `notify_observers` has no exception handling (biometrical.py:78-79): an
  observer that raises stops the dispatch. Neither observer raises on its
  own; a failing `print` would raise out of `update` and stop the dispatch.

## Model

| member | source | states |
|---|---|---|
| `AccessControl.User.constructor` | biometrical.py:20-22 | a new user keeps the given name; the biometric data is left out |
| `AccessControl.Decide` | biometrical.py:83-86 | the event carries the very user presented, and `success` holds exactly when some entry of the allow-list is that same user object |
| `AccessControl.Observer.Emitted` | biometrical.py:94-108 | an `AdminNotifier` prints one alert naming the event's user exactly when the attempt failed and nothing when it succeeded; a `Logger` prints exactly one log line carrying the event, whatever its outcome |
| `AccessControl.Observer.Update` | biometrical.py:97-108 | `update` appends to the console exactly what `Emitted` describes and nothing else |
| `AccessControl.Dispatch` | biometrical.py:76-79 | a notification round prints at most one line per registry entry |
| `AccessControl.IndexOf` | biometrical.py:74 | the lookup `list.remove` does: absent exactly when the observer is not registered; otherwise a valid position holding the observer with no earlier occurrence (the first one) |
| `AccessControl.Removed` | biometrical.py:72-74 | `list.remove` on a registry fails with `ValueError` exactly when the observer is absent; otherwise the result is one entry shorter and holds the same entries minus exactly one copy of the observer |
| `AccessControl.AccessControlSystem.constructor` | biometrical.py:65-66 | a new system has an empty registry |
| `AccessControl.AccessControlSystem.AddObserver` | biometrical.py:68-70 | the new registry is the old one followed by the added observer |
| `AccessControl.AccessControlSystem.RemoveObserver` | biometrical.py:72-74 | fails with `ValueError` exactly when the observer is not registered, and then leaves the registry unchanged; otherwise the new registry is `Removed` of the old one, so the lemmas about `Removed` (first occurrence only, order kept, add-then-remove round trip) hold of the method |
| `AccessControl.AccessControlSystem.NotifyObservers` | biometrical.py:76-79 | the loop leaves on the console the old output followed by `Dispatch` of the registry, that is, each entry's `update` output in registry order |
| `AccessControl.AccessControlSystem.ProcessAccess` | biometrical.py:81-89 | the registry is unchanged, and the console gets exactly `Dispatch` of the registry on the event `Decide` builds |
| `AccessControl.DispatchAppend` | biometrical.py:78-79 | notification follows registration order: output for a registry `a + b` is the output for `a` followed by the output for `b` |
| `AccessControl.DispatchCounts` | biometrical.py:76-79 | one round logs the event once per `Logger` entry and alerts once per `AdminNotifier` entry if the attempt failed (never if it succeeded), counting repeated registrations, and prints nothing else; an empty registry prints nothing |
| `AccessControl.DispatchedDecision` | biometrical.py:81-89 | end to end: an alert naming the user is printed exactly when the user is not in the allow-list and an administrator notifier is registered; the event is logged exactly when a logger is registered |
| `AccessControl.IndexOfAppend` | biometrical.py:68-74 | appending to the registry does not move the first occurrence of an observer that was already there |
| `AccessControl.AddThenRemove` | biometrical.py:68-74 | adding an observer that was not registered and then removing it restores the registry exactly |
| `AccessControl.RemoveFindsEarlierCopy` | biometrical.py:68-74 | adding an already registered observer again and then removing it drops the earlier copy, leaving the new one at the end |
| `AccessControl.RemovedKeepsOrder` | biometrical.py:72-74 | removal keeps every entry before the removed one in place and moves every entry after it up by one |

## Left out

- `BiometricData`, `BiometricDataFactory` and the `biometric_data` attribute of `User`: they only store strings and take no part in the decision.
- The `__str__` methods and the exact text of the printed lines: output is modelled as abstract `Alert(user)` and `Log(event)` lines.
- The `Observer` abstract base class: it is replaced by the closed datatype of the two observer kinds, so observers other than `AdminNotifier` and `Logger` are not modelled.
- The example driver under `if __name__ == "__main__"`: it only wires sample users and prints.
- Observer identity: an observer object is represented by its kind and a `tag`. Callers must give distinct observer objects distinct values.
- Output failures: a `print` in `AdminNotifier.update` or `Logger.update` can raise (a closed or broken stdout, an encoding error), which would stop the dispatch and escape from `process_access`. The model's console writes always succeed, so it does not capture a dispatch cut short this way.
- Concurrency and observer failure isolation: the code has neither, and the model has neither.
