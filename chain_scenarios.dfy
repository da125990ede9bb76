/**
 * Client scenarios of the container, stated only through its public contracts: each method runs
 * one scripted sequence of calls and its postcondition fixes every observation along the way.
 */
module ChainScenarios {
  import opened Outcomes
  import opened ChainSpec
  import opened Chain

  /** The three-word text form the test expects: the words joined by ", " inside brackets. */
  lemma ThreeWordsRendered()
    ensures Rendered(["Один", "Два", "Три"]) == "[Один, Два, Три]"
  {
  }

  /** The text of a chain follows its contents: empty, then one word, then three words in insertion order. */
  method TextScenario() returns (empty: string, single: string, three: string)
    ensures empty == "[]" && single == "[Один]" && three == "[Один, Два, Три]"
  {
    var chain := new LinkedListContainer<string>();
    empty := ToString(chain);
    var _ := chain.Add(Some("Один"));
    single := ToString(chain);
    RenderedShort("Один");
    var _ := chain.Add(Some("Два"));
    var _ := chain.Add(Some("Три"));
    assert chain.Contents == ["Один", "Два", "Три"];
    three := ToString(chain);
    ThreeWordsRendered();
  }

  /**
   * Removing position 1 of a three-element chain returns the middle element, which `get(1)` gave
   * just before; the length drops to 2 and the outer elements close up in order.
   */
  method ExtractionScenario() returns (peeked: Result<string>, extracted: Result<string>, length: int,
                                       first: Result<string>, second: Result<string>)
    ensures peeked == Ok("B") && extracted == peeked
    ensures length == 2 && first == Ok("A") && second == Ok("C")
  {
    var chain := new LinkedListContainer<string>();
    var _ := chain.Add(Some("A"));
    var _ := chain.Add(Some("B"));
    var _ := chain.Add(Some("C"));
    peeked := chain.Get(1);
    extracted := chain.RemoveAt(1);
    assert chain.Contents == ["A", "C"];
    length := chain.GetLength();
    first := chain.Get(0);
    second := chain.Get(1);
  }

  /** Removing the middle element by value answers true, leaves two elements, and the value is then absent. */
  method RemovalByValueScenario() returns (removed: bool, length: int, stillThere: bool)
    ensures removed && length == 2 && !stillThere
  {
    var chain := new LinkedListContainer<string>();
    var _ := chain.Add(Some("Red"));
    var _ := chain.Add(Some("Green"));
    var _ := chain.Add(Some("Blue"));
    assert chain.Contents == ["Red", "Green", "Blue"];
    assert RemoveFirst(["Red", "Green", "Blue"], "Green") == ["Red", "Blue"];
    removed := chain.RemoveItem(Some("Green"));
    length := chain.GetLength();
    stillThere := chain.HasElement(Some("Green"));
  }

  /** Clearing a three-element chain leaves it empty, with length 0 and text "[]"; a second clear changes nothing. */
  method ClearScenario() returns (empty: bool, length: int, text: string, emptyAgain: bool)
    ensures empty && length == 0 && text == "[]" && emptyAgain
  {
    var chain := new LinkedListContainer<string>();
    var _ := chain.Add(Some("P1"));
    var _ := chain.Add(Some("P2"));
    var _ := chain.Add(Some("P3"));
    chain.WipeAll();
    empty := chain.IsChainEmpty();
    length := chain.GetLength();
    text := ToString(chain);
    chain.WipeAll();
    emptyAgain := chain.IsChainEmpty();
  }

  /** First positions in the list the repeat test builds: 0 for the repeated word, 1 for the other, -1 for an absent one. */
  lemma RepeatedWordsIndexed(s: seq<string>)
    requires s == ["Повтор", "Уникальный", "Повтор"]
    ensures IndexOf(s, "Повтор") == 0
    ensures IndexOf(s, "Уникальный") == 1
    ensures IndexOf(s, "Отсутствующий") == -1
  {
  }

  /** With a duplicate in the chain, `findPosition` reports the first occurrence; an absent item gives -1. */
  method RepeatScenario() returns (twice: int, once: int, absent: int)
    ensures twice == 0 && once == 1 && absent == -1
  {
    var chain := new LinkedListContainer<string>();
    var _ := chain.Add(Some("Повтор"));
    var _ := chain.Add(Some("Уникальный"));
    var _ := chain.Add(Some("Повтор"));
    RepeatedWordsIndexed(chain.Contents);
    twice := chain.FindPosition(Some("Повтор"));
    once := chain.FindPosition(Some("Уникальный"));
    absent := chain.FindPosition(Some("Отсутствующий"));
  }

  /**
   * A null item is refused by `add`; positions -1 and 5 of a one-element chain are out of bounds;
   * an absent or null item is not removed, the length stays 1, and a null item is at position -1.
   */
  method RejectionScenario() returns (nullAdd: Outcome, below: Result<string>, above: Result<string>,
                                      absentRemoved: bool, nullRemoved: bool, length: int,
                                      nullPosition: int)
    ensures nullAdd == Fail(IllegalArgument)
    ensures below == Err(IndexOutOfBounds) && above == Err(IndexOutOfBounds)
    ensures !absentRemoved && !nullRemoved && length == 1 && nullPosition == -1
  {
    var chain := new LinkedListContainer<string>();
    nullAdd := chain.Add(None);
    var _ := chain.Add(Some("Present"));
    below := chain.Get(-1);
    above := chain.Get(5);
    absentRemoved := chain.RemoveItem(Some("Missing"));
    nullRemoved := chain.RemoveItem(None);
    length := chain.GetLength();
    nullPosition := chain.FindPosition(None);
  }

  /**
   * Emptiness follows the chain: empty at first, not after one `add`, empty again after
   * `removeAt(0)`; a chain built by three `add`s has no cycle, and removing its tail leaves a
   * chain whose new last element is still reachable by `get`.
   */
  method LifecycleScenario() returns (initially: bool, afterAdd: bool, afterRemove: bool,
                                      cyclic: bool, tail: Result<string>, last: Result<string>)
    ensures initially && !afterAdd && afterRemove
    ensures !cyclic
    ensures tail == Ok("C") && last == Ok("B")
  {
    var chain := new LinkedListContainer<string>();
    initially := chain.IsChainEmpty();
    var _ := chain.Add(Some("Only"));
    afterAdd := chain.IsChainEmpty();
    var _ := chain.RemoveAt(0);
    afterRemove := chain.IsChainEmpty();
    var _ := chain.Add(Some("A"));
    var _ := chain.Add(Some("B"));
    var _ := chain.Add(Some("C"));
    chain.ValidIsChained();
    cyclic := chain.HasCycle(|chain.Nodes|);
    tail := chain.RemoveAt(2);
    assert chain.Contents == ["A", "B"];
    last := chain.Get(1);
  }

  /** Adding `count` items one by one keeps the length equal to `count`, and each reads back at its position. */
  method HighVolumeScenario(count: nat) returns (length: int, allFound: bool)
    ensures length == count && allFound
  {
    var chain := new LinkedListContainer<int>();
    for i := 0 to count
      invariant chain.Valid() && fresh(chain.Repr)
      invariant chain.Contents == seq(i, k => k)
    {
      var _ := chain.Add(Some(i));
    }
    length := chain.GetLength();
    allFound := true;
    for i := 0 to count
      invariant chain.Valid() && chain.Contents == seq(count, k => k)
      invariant allFound
    {
      var got := chain.Get(i);
      allFound := allFound && got == Ok(i);
    }
  }
}
