# LinkedListContainer, modelled in Dafny

A model of `LinkedListContainer<T>`, a hand-written singly linked list. The list keeps three
fields: `start` (the first link), `end` (a cached reference to the last link, used to append in
constant time) and `elementCount`. Its links are `ChainElement` objects, each with a `value` and a
`link` to the next one. The public operations are:

- append (`add`) and positional read (`get`);
- removal by position (`removeAt`) and by value (`removeItem`);
- search (`findPosition`, `hasElement`) and size queries (`getLength`, `isChainEmpty`);
- reset (`wipeAll`), text form (`toString`) and Floyd's tortoise-and-hare check (`hasCycle`).

The model keeps the source's form:

- `Chain.LinkedListContainer` is a class with the same three fields. Its methods rewrite node links
  in place.
- Three ghost fields give the abstract view. `Nodes` is the chain of links in order, `Contents` their
  values, and `Repr` the objects the list owns.
- `Valid()` is the representation invariant:
  - `elementCount` is the number of links reachable from `start`.
  - The links are pairwise distinct, so the chain has no cycle.
  - Each link points to the next one.
  - `start` is the first link and `end` the last. The last link's `link` is null.
  - `start`, `end` and `elementCount == 0` are null/true together.
- `Chained(back)` is the weaker shape of any chain reachable from `start`, valid or not: distinct
  links in order, the last of which links to null or back to the link at index `back` (a
  "lasso"). `ClosesLoop()` says the last link is not null. `hasCycle` is specified over this shape.
- Every mutator keeps `Valid()` and states its new `Contents` in terms of the old.
- The loops of `locateElement`, `removeItem`, `findPosition`, `toString` and `hasCycle` are
  `while`/`for` loops with invariants over `Nodes`.

Java `null` arguments are modelled as `Option<T>` (`None` is null). Thrown exceptions are modelled as
`Result`/`Outcome` values carrying `IllegalArgument` or `IndexOutOfBounds`. Java's `equals` on
elements is Dafny equality on a `T(==)`.

Module `ChainSpec` holds the functions that specify the operations on plain sequences:

- `IndexOf`: the first occurrence.
- `RemoveFirst`: removal of the first occurrence, defined element by element.
- `Join` and `Rendered`: the bracketed, comma-separated text form.

Lemmas about these functions connect each one to an independent description. Module
`ChainScenarios` replays scripted call sequences. It uses only the public contracts, and each
scenario's postcondition fixes every value it observes. The text and repeat scenarios use the test's
own words. The other string scenarios use short Latin stand-ins ("A", "Red", "P1", ...) for the
test's longer Russian phrases. `HighVolumeScenario` stores the integers `0..count-1` in place of the
test's strings "Объект" + i, for every `count` rather than the test's 500. Which values are stored
does not matter to those scenarios, only that they differ.

## Model

| member | source | states |
|---|---|---|
| `Chain.ChainElement.constructor` | src/main/java/org/example/LinkedListContainer.java:49 | a new link holds the given value and has a null `link` |
| `Chain.LinkedListContainer.Valid` | src/main/java/org/example/LinkedListContainer.java:15-17 | representation invariant over `start`, `end` and `elementCount`: the counter equals the number of reachable links; links are distinct (acyclic) and hold `Contents` in order; `end` is the last link and its `link` is null; all are null/zero together |
| `Chain.LinkedListContainer.constructor` | src/main/java/org/example/LinkedListContainer.java:30-34 | a new list is valid and empty |
| `Chain.LinkedListContainer.Add` | src/main/java/org/example/LinkedListContainer.java:44-59 | a null item fails with IllegalArgument and leaves the list and every link unchanged; otherwise the contents become the old contents followed by the item, and the invariant (including `end`) is kept |
| `Chain.LinkedListContainer.Get` | src/main/java/org/example/LinkedListContainer.java:70-75 | fails with IndexOutOfBounds exactly when `position < 0` or `position >= length`; otherwise returns the element at `position`; changes nothing |
| `Chain.LinkedListContainer.RemoveAt` | src/main/java/org/example/LinkedListContainer.java:91-108 | for a valid position returns the old element there and the contents become the old ones without that position (head, middle and tail alike, `end` kept right); an invalid position fails with IndexOutOfBounds and leaves the list and every link unchanged |
| `Chain.LinkedListContainer.RemoveItem` | src/main/java/org/example/LinkedListContainer.java:118-145 | answers true exactly when the item is non-null and present; the contents become `RemoveFirst(old contents, item)`, i.e. only the first equal element goes; when it answers false the list and every link are unchanged |
| `Chain.LinkedListContainer.UnlinkNext` | src/main/java/org/example/LinkedListContainer.java:133-141 | unlinking the link after position `k` removes exactly element `k + 1` and keeps the invariant, moving `end` back when the tail is removed |
| `Chain.LinkedListContainer.GetLength` | src/main/java/org/example/LinkedListContainer.java:153-155 | the counter equals the number of elements |
| `Chain.LinkedListContainer.IsChainEmpty` | src/main/java/org/example/LinkedListContainer.java:163-165 | true exactly when there are no elements |
| `Chain.LinkedListContainer.WipeAll` | src/main/java/org/example/LinkedListContainer.java:174-178 | from any state, valid or not, leaves a valid empty list owning nothing but itself; so a second call changes nothing |
| `Chain.LinkedListContainer.HasElement` | src/main/java/org/example/LinkedListContainer.java:188-190 | true exactly when the item is non-null and some element equals it, i.e. when `findPosition` is not -1 |
| `Chain.LinkedListContainer.FindPosition` | src/main/java/org/example/LinkedListContainer.java:200-217 | -1 for a null item; otherwise `IndexOf(contents, item)`: the first equal position, or -1 when absent |
| `Chain.ToString` | src/main/java/org/example/LinkedListContainer.java:226-243 | for a list of strings, the text is `Rendered(contents)`: "[]" when empty, else the elements joined by ", " in brackets |
| `Chain.LinkedListContainer.ExtractFirstElement` | src/main/java/org/example/LinkedListContainer.java:255-265 | on a non-empty list returns the first element and the contents lose it; `end` becomes null when the list empties |
| `Chain.LinkedListContainer.LocateElement` | src/main/java/org/example/LinkedListContainer.java:277-283 | walking `position` links from `start` reaches the link at that position, which holds the element there |
| `Chain.LinkedListContainer.ValidatePosition` | src/main/java/org/example/LinkedListContainer.java:294-299 | passes exactly for positions in [0, length); fails only with IndexOutOfBounds |
| `Chain.LinkedListContainer.HasCycle` | src/main/java/org/example/LinkedListContainer.java:301-324 | on any chain reachable from `start`, null-terminated or a lasso, the tortoise-and-hare loop terminates and answers true exactly when the last link points back into the chain (`ClosesLoop`); hence false on every valid list |
| `Chain.LinkedListContainer.ValidIsChained` | src/main/java/org/example/LinkedListContainer.java:15-17 | a list satisfying the representation invariant has the null-terminated chain shape, so it does not close on itself |
| `ChainSpec.IndexOf` | src/main/java/org/example/LinkedListContainer.java:205-216 | the result is -1 exactly when the item is absent; otherwise it holds the item and no earlier position does |
| `ChainSpec.IndexOfUnique` | src/main/java/org/example/LinkedListContainer.java:208-211 | a position holding the item with no earlier occurrence is the `IndexOf` result |
| `ChainSpec.RemoveFirstSplices` | src/main/java/org/example/LinkedListContainer.java:128-144 | removing the first occurrence splices the sequence at `IndexOf`, and is the identity when the item is absent |
| `ChainSpec.RemoveFirstMultiset` | src/main/java/org/example/LinkedListContainer.java:118-145 | removal by value takes one copy of the item out of the multiset of elements and nothing else; the length drops by one exactly when the item was present |
| `ChainSpec.JoinSnoc` | src/main/java/org/example/LinkedListContainer.java:234-240 | appending an element extends the joined text by ", " and that element (or just the element when the list was empty) |
| `ChainSpec.JoinPrefixStep` | src/main/java/org/example/LinkedListContainer.java:234-240 | one pass of the `toString` loop: appending element `i`, then ", " if another follows, turns the text of the first `i` elements into the text of the first `i + 1` |
| `ChainSpec.RenderedShort` | src/main/java/org/example/LinkedListContainer.java:227-229 | an empty list renders as "[]" and a one-element list as that element in brackets |
| `ChainScenarios.ThreeWordsRendered` | src/test/java/LinkedListContainerTest.java:274-276 | the three-word text the test expects: "[Один, Два, Три]" is the rendering of "Один", "Два", "Три" |
| `ChainScenarios.TextScenario` | src/test/java/LinkedListContainerTest.java:268-276 | the text of a list follows its contents: "[]" when new, "[Один]" after one add, "[Один, Два, Три]" after three |
| `ChainScenarios.ExtractionScenario` | src/test/java/LinkedListContainerTest.java:98-108 | `removeAt(1)` on three elements returns the element `get(1)` gave just before; the length drops to 2 and the outer elements close up in order |
| `ChainScenarios.RemovalByValueScenario` | src/test/java/LinkedListContainerTest.java:156-164 | removing the middle element by value answers true, leaves two elements, and `hasElement` then answers false for it |
| `ChainScenarios.ClearScenario` | src/test/java/LinkedListContainerTest.java:208-217 | `wipeAll` on three elements gives an empty list, length 0 and text "[]"; a second `wipeAll` keeps it empty |
| `ChainScenarios.RepeatedWordsIndexed` | src/test/java/LinkedListContainerTest.java:247-253 | in the list "Повтор", "Уникальный", "Повтор" the first positions are 0 and 1, and "Отсутствующий" is at -1 |
| `ChainScenarios.RepeatScenario` | src/test/java/LinkedListContainerTest.java:246-254 | with a duplicate, `findPosition` reports the first occurrence; an absent item gives -1 |
| `ChainScenarios.RejectionScenario` | src/test/java/LinkedListContainerTest.java:79-84 | `add(null)` fails with IllegalArgument; `get(-1)` and `get(5)` on a one-element list fail with IndexOutOfBounds; absent and null items are not removed and the length stays 1 (as at lines 172-177); `findPosition` of a null item is -1 |
| `ChainScenarios.LifecycleScenario` | src/test/java/LinkedListContainerTest.java:191-199 | emptiness follows add and `removeAt(0)`; a list of three adds has no cycle; removing the tail returns it and leaves the new last element readable |
| `ChainScenarios.HighVolumeScenario` | src/test/java/LinkedListContainerTest.java:286-298 | after `count` adds the length is `count` and every item reads back at its own position |

`UnlinkNext` is one helper for the identical unlink sequence that `removeAt` (lines 99-106) and
`removeItem` (lines 134-140) each write out in place. It rewrites `link` of the preceding link, moves
`end` back when the removed link was the last, and decrements `elementCount`.

`LocateElement` requires `0 <= position < length`, and `ExtractFirstElement` requires a non-empty
list. Both are private in the source, and every caller establishes these conditions first:
`validatePosition`, the `position == 0` case, or the `start == null` test.

## Left out

- `toString` for an arbitrary element type: it calls each element's own `toString`, which is not
  part of the model. `Chain.ToString` models it for strings, where that call is the identity.
- The source files of `ChainElement` and of the `LinkedList` interface are not among the modelled
  files. `Chain.ChainElement` is rebuilt from how `LinkedListContainer.java` uses it: the
  constructor taking the value at line 49, and the mutable `value` and `link` read and written at
  lines 55 and 99-100. Nothing is assumed from the interface.
- The text of the exception messages: only the kind of exception is modelled.
- `elementCount` is an unbounded integer. Java `int` overflow after 2^31 - 1 additions is not
  modelled.
- Garbage collection of unlinked nodes: removed nodes simply leave `Repr`.
- Concurrency: the list is single-threaded, and so is the model.
- `Main.java`: a console demonstration that only prints. The JUnit harness itself is not modelled;
  its scenarios are replayed in `ChainScenarios`.
