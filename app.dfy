/**
 * The selection cursor over the discovered virtualenvs: a list that the moves
 * never change and an index that they move one step at a time, stopping at
 * either end.
 */
module AppState {
  import opened Wrappers
  import opened Scanner

  /** The index `previous` moves to: one back, or stay at the first entry. */
  function PreviousIndex(selected: nat): (r: nat)
    ensures r <= selected
    ensures selected > 0 ==> r + 1 == selected
  {
    if selected > 0 then selected - 1 else selected
  }

  /** The index `next` moves to in a list of `len` entries: one on, or stay at the last. */
  function NextIndex(selected: nat, len: nat): (r: nat)
    ensures selected <= r <= selected + 1
    ensures selected < len ==> r < len
    ensures r == selected + 1 <==> selected + 1 < len
  {
    if selected + 1 < len then selected + 1 else selected
  }

  /** The index after `k` calls of `previous`. */
  function PreviousTimes(selected: nat, k: nat): nat
  {
    if k == 0 then selected else PreviousIndex(PreviousTimes(selected, k - 1))
  }

  /** The index after `k` calls of `next`. */
  function NextTimes(selected: nat, len: nat, k: nat): nat
  {
    if k == 0 then selected else NextIndex(NextTimes(selected, len, k - 1), len)
  }

  /** Repeated `previous` counts down and then stays at 0. */
  lemma {:induction false} PreviousSaturates(selected: nat, k: nat)
    ensures PreviousTimes(selected, k) == if k <= selected then selected - k else 0
  {
    if k > 0 {
      PreviousSaturates(selected, k - 1);
    }
  }

  /**
   * Repeated `next` counts up and then stays at the last entry; from an index
   * at or past the last entry (in particular on an empty list) it never moves.
   */
  lemma {:induction false} NextSaturates(selected: nat, len: nat, k: nat)
    ensures NextTimes(selected, len, k) ==
      if selected + k < len then selected + k
      else if selected < len then len - 1
      else selected
  {
    if k > 0 {
      NextSaturates(selected, len, k - 1);
    }
  }

  /** `previous` then `next` comes back to any index strictly inside the list. */
  lemma PreviousThenNextRestores(selected: nat, len: nat)
    requires 0 < selected < len
    ensures NextIndex(PreviousIndex(selected), len) == selected
  {
  }

  /** `next` then `previous` comes back to any index that is not the last. */
  lemma NextThenPreviousRestores(selected: nat, len: nat)
    requires selected + 1 < len
    ensures PreviousIndex(NextIndex(selected, len)) == selected
  {
  }

  /** A command the interface sends to the cursor. */
  datatype Move = Up | Down

  /** The index after running `moves` in order on a list of `len` entries. */
  function Run(selected: nat, len: nat, moves: seq<Move>): nat
    decreases |moves|
  {
    if moves == [] then selected
    else
      var last := moves[|moves| - 1];
      var before := Run(selected, len, moves[..|moves| - 1]);
      if last == Up then PreviousIndex(before) else NextIndex(before, len)
  }

  /** The cursor invariant: in range for a non-empty list, 0 for an empty one. */
  predicate InRange(selected: nat, len: nat)
  {
    if len == 0 then selected == 0 else selected < len
  }

  /** Every sequence of moves keeps a cursor that starts in range in range. */
  lemma {:induction false} RunKeepsInRange(selected: nat, len: nat, moves: seq<Move>)
    requires InRange(selected, len)
    ensures InRange(Run(selected, len, moves), len)
    decreases |moves|
  {
    if moves != [] {
      RunKeepsInRange(selected, len, moves[..|moves| - 1]);
    }
  }

  /** `App`: the discovered virtualenvs and the index of the highlighted one. */
  class App {
    var venvs: seq<VenvInfo>
    var selected: nat

    /** The cursor addresses an entry, or is 0 on an empty list. */
    ghost predicate Valid()
      reads this
    {
      InRange(selected, |venvs|)
    }

    /** `App::new`: keep the list as given and start at the first entry. */
    constructor (venvs: seq<VenvInfo>)
      ensures this.venvs == venvs && selected == 0
      ensures Valid()
    {
      this.venvs := venvs;
      selected := 0;
    }

    /** `previous`: move one entry up unless already at the first. */
    method Previous()
      modifies this`selected
      ensures selected == PreviousIndex(old(selected))
      ensures selected == if old(selected) > 0 then old(selected) - 1 else 0
      ensures venvs == old(venvs)
      ensures old(Valid()) ==> Valid()
    {
      if selected > 0 {
        selected := selected - 1;
      }
    }

    /** `next`: move one entry down only while a further entry exists. */
    method Next()
      modifies this`selected
      ensures selected == NextIndex(old(selected), |venvs|)
      ensures selected == if old(selected) + 1 < |venvs| then old(selected) + 1 else old(selected)
      ensures venvs == old(venvs)
      ensures old(Valid()) ==> Valid()
    {
      if selected + 1 < |venvs| {
        selected := selected + 1;
      }
    }

    /** `selected_venv`: the entry under the cursor, if the cursor addresses one. */
    function SelectedVenv(): (r: Option<VenvInfo>)
      reads this
      ensures r.Some? <==> selected < |venvs|
      ensures r.Some? ==> r.value == venvs[selected]
    {
      if selected < |venvs| then Some(venvs[selected]) else None
    }

    /** A valid cursor over a non-empty list always has an entry to show. */
    lemma ValidSelectsEntry()
      requires Valid() && |venvs| > 0
      ensures SelectedVenv() == Some(venvs[selected])
    {
    }
  }
}
