/** The typewriter component itself: three mutable state cells overwritten
    by a timer callback, one step at a time, and the text it renders. */
module TypewriterComponent {
  import opened Typewriter

  class TypewriterText {
    const texts: seq<string>
    var currentText: string
    var currentIndex: nat
    var isDeleting: bool

    /** The component's state cells as a value of the pure model. */
    function Snapshot(): State
      reads this
    {
      State(currentText, currentIndex, if isDeleting then Deleting else Typing)
    }

    ghost predicate Valid()
      reads this
    {
      ValidState(texts, Snapshot())
    }

    /** The first render: empty text, first phrase, typing. */
    constructor (texts: seq<string>)
      requires |texts| > 0
      ensures this.texts == texts
      ensures Valid()
      ensures Snapshot() == Initial()
    {
      this.texts := texts;
      currentText := "";
      currentIndex := 0;
      isDeleting := false;
    }

    /** The delay the current state passes to its timer. */
    method TimerDelay() returns (ms: nat)
      ensures ms == Delay(Snapshot())
      ensures ms == if isDeleting then 50 else 100
    {
      ms := if isDeleting then DeleteDelay else TypeDelay;
    }

    /** One step: one firing of the timer callback, or, for the pause, the
        outer callback and the nested one together. `deferredBy` is the extra
        wait in milliseconds before the update takes effect: 2000 for the
        pause that precedes deleting, 0 otherwise. */
    method Tick() returns (deferredBy: nat)
      requires Valid()
      modifies this
      ensures Valid()
      ensures Snapshot() == Step(texts, old(Snapshot()))
      ensures deferredBy == PauseBefore(texts, old(Snapshot()))
    {
      var text := texts[currentIndex];
      deferredBy := 0;
      if !isDeleting {
        if |currentText| < |text| {
          currentText := Slice(text, |currentText| + 1);
        } else {
          deferredBy := PauseDelay;
          isDeleting := true;
        }
      } else {
        if |currentText| > 0 {
          currentText := Slice(text, |currentText| - 1);
        } else {
          isDeleting := false;
          currentIndex := (currentIndex + 1) % |texts|;
        }
      }
    }

    /** The text the component renders: a prefix of the current phrase. */
    method Render() returns (shown: string)
      requires Valid()
      ensures shown == Snapshot().text
      ensures shown <= texts[currentIndex]
    {
      shown := currentText;
    }
  }
}
