/** The find input's search history. Up and Down walk back and forth through
    earlier searches, saving the text being typed first; leaving the input
    saves it too. The position in the history counts back from the newest
    entry, as a negative Python index does. */
module FindInputWidget {
  import opened TextUtil

  /** The input's value, its history (oldest first) and the position being
      shown, if any. */
  datatype Find = Find(value: string, history: seq<string>, index: Option<int>)

  /** The position, when there is one, names an entry: -|history| <= index <= -1. */
  predicate Valid(f: Find)
  {
    f.index.Some? ==> -|f.history| <= f.index.value <= -1
  }

  /** The entry at a negative index. */
  function Entry(history: seq<string>, i: int): string
    requires -|history| <= i <= -1
  {
    history[|history| + i]
  }

  /** The value is worth saving: non-empty, and not the newest entry already. */
  predicate ShouldSave(f: Find)
  {
    f.value != "" && (f.history == [] || f.value != f.history[|f.history| - 1])
  }

  /** checkpoint(): the state after saving the value when it is worth saving. */
  function Saved(f: Find): (g: Find)
    ensures g.value == f.value && g.index == f.index
    ensures ShouldSave(f) ==> g.history == f.history + [f.value]
    ensures !ShouldSave(f) ==> g.history == f.history
  {
    if ShouldSave(f) then f.(history := f.history + [f.value]) else f
  }

  /** _handle_up: with no history, save a non-empty value and clear the input.
      Otherwise start from the newest entry (after saving the value when not
      yet browsing) and step one entry older, stopping at the oldest. */
  function Up(f: Find): Find
    requires Valid(f)
  {
    if f.history == [] then
      Find("", if f.value != "" then [f.value] else [], f.index)
    else
      var g := if f.index.None? then Saved(f) else f;
      var start := if f.index.Some? then f.index.value else if ShouldSave(f) then -1 else 0;
      var i := if start - 1 < -|g.history| then -|g.history| else start - 1;
      Find(Entry(g.history, i), g.history, Some(i))
  }

  /** _handle_down: when not browsing, save the value and clear the input;
      from the newest entry, stop browsing and clear the input; otherwise
      step one entry newer. */
  function Down(f: Find): Find
    requires Valid(f)
  {
    match f.index
    case None => Saved(f).(value := "")
    case Some(i) =>
      if i == -1 then f.(index := None, value := "")
      else Find(Entry(f.history, i + 1), f.history, Some(i + 1))
  }

  /** handle_blur: save the value when it is worth saving. */
  function Blur(f: Find): Find
  {
    Saved(f)
  }

  datatype Key = UpKey | DownKey | F3 | OtherKey

  /** handle_special_keys: Up and Down walk the history, F3 submits the value
      (returned), and any other key stops browsing. */
  function OnKey(f: Find, key: Key): (Find, Option<string>)
    requires Valid(f)
  {
    match key
    case UpKey => (Up(f), None)
    case DownKey => (Down(f), None)
    case F3 => (f, Some(f.value))
    case OtherKey => (f.(index := None), None)
  }

  /** The history only ever grows by saving the value: the old history is
      kept as it was and at most the value is added after it. */
  predicate AppendOnly(before: Find, after: seq<string>)
  {
    after == before.history || (before.value != "" && after == before.history + [before.value])
  }

  /** No entry is empty and no entry repeats the one before it. */
  predicate WellKept(history: seq<string>)
  {
    (forall k :: 0 <= k < |history| ==> history[k] != "")
    && (forall k :: 0 <= k < |history| - 1 ==> history[k] != history[k + 1])
  }

  lemma SavedWellKept(f: Find)
    requires WellKept(f.history)
    ensures WellKept(Saved(f).history)
  {
  }

  /** Every key keeps the position valid, keeps the history append-only and
      keeps it free of empty entries and repeats. */
  lemma OnKeyInvariants(f: Find, key: Key)
    requires Valid(f)
    ensures Valid(OnKey(f, key).0)
    ensures AppendOnly(f, OnKey(f, key).0.history)
    ensures WellKept(f.history) ==> WellKept(OnKey(f, key).0.history)
  {
    if WellKept(f.history) {
      SavedWellKept(f);
    }
  }

  /** Leaving the input keeps the position valid and the history append-only
      and well kept. */
  lemma BlurInvariants(f: Find)
    requires Valid(f)
    ensures Valid(Blur(f)) && AppendOnly(f, Blur(f).history)
    ensures WellKept(f.history) ==> WellKept(Blur(f).history)
  {
    if WellKept(f.history) {
      SavedWellKept(f);
    }
  }

  /** With a history, Up always browses, and shows the entry it names. */
  lemma UpShowsEntry(f: Find)
    requires Valid(f) && f.history != []
    ensures var g := Up(f);
            g.index.Some? && Valid(g) && g.value == Entry(g.history, g.index.value)
  {
  }

  /** Up when not browsing saves what was typed and shows the entry that
      was newest before it. */
  lemma UpSavesTypedValue(f: Find)
    requires f.index.None? && f.history != [] && ShouldSave(f)
    ensures var g := Up(f);
            g.history == f.history + [f.value]
            && g.index == Some(-2) && g.value == f.history[|f.history| - 1]
  {
  }

  /** Up at the oldest entry stays there. */
  lemma UpStopsAtOldest(f: Find)
    requires f.history != [] && f.index == Some(-|f.history|)
    ensures Up(f) == Find(f.history[0], f.history, f.index)
  {
  }

  /** Down undoes Up while browsing away from the oldest entry. */
  lemma {:induction false} DownUndoesUp(f: Find)
    requires Valid(f) && f.index.Some? && f.index.value > -|f.history|
    requires f.value == Entry(f.history, f.index.value)
    ensures Down(Up(f)) == f
  {
    var i := f.index.value;
    var g := Up(f);
    assert g == Find(Entry(f.history, i - 1), f.history, Some(i - 1));
    assert Down(g) == Find(Entry(f.history, i), f.history, Some(i));
  }

  /** The find input as an object; each key and the blur event update its
      fields as the functions above say. */
  class FindInput {
    var value: string
    var history: seq<string>
    var index: Option<int>

    function State(): Find
      reads this
    {
      Find(value, history, index)
    }

    constructor(value: string, history: seq<string>)
      ensures State() == Find(value, history, None) && Valid(State())
    {
      this.value := value;
      this.history := history;
      this.index := None;
    }

    /** checkpoint(): saves the value when worth it and says whether it did. */
    method Checkpoint() returns (saved: bool)
      modifies this
      ensures saved == ShouldSave(old(State()))
      ensures State() == Saved(old(State()))
    {
      if value != "" && (history == [] || value != history[|history| - 1]) {
        history := history + [value];
        return true;
      }
      return false;
    }

    method HandleUp()
      requires Valid(State())
      modifies this
      ensures State() == Up(old(State())) && Valid(State())
    {
      if history == [] {
        if value != "" {
          history := history + [value];
        }
        value := "";
        return;
      }
      if index.None? {
        var saved := Checkpoint();
        index := Some(if saved then -1 else 0);
      }
      var i := index.value - 1;
      if i < -|history| {
        i := -|history|;
      }
      index := Some(i);
      value := history[|history| + i];
    }

    method HandleDown()
      requires Valid(State())
      modifies this
      ensures State() == Down(old(State())) && Valid(State())
    {
      if index.None? {
        var _ := Checkpoint();
        value := "";
      } else if index.value == -1 {
        index := None;
        value := "";
      } else {
        index := Some(index.value + 1);
        value := history[|history| + index.value];
      }
    }

    method HandleBlur()
      requires Valid(State())
      modifies this
      ensures State() == Blur(old(State())) && Valid(State())
    {
      if value != "" && (history == [] || value != history[|history| - 1]) {
        history := history + [value];
      }
    }

    /** Returns the value submitted by F3, if any. */
    method HandleSpecialKeys(key: Key) returns (submitted: Option<string>)
      requires Valid(State())
      modifies this
      ensures (State(), submitted) == OnKey(old(State()), key) && Valid(State())
    {
      submitted := None;
      if key == OtherKey {
        index := None;
        return;
      }
      if key == DownKey {
        HandleDown();
      } else if key == UpKey {
        HandleUp();
      } else {
        submitted := Some(value);
      }
    }
  }
}
