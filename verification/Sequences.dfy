/** Pieces put together. */
module Sequences {

  function Flatten<T>(pieces: seq<seq<T>>): seq<T> {
    if pieces == [] then [] else pieces[0] + Flatten(pieces[1..])
  }

  /** One more piece at the end. */
  lemma {:induction false} FlattenStep<T>(pieces: seq<seq<T>>, i: nat)
    requires i < |pieces|
    ensures Flatten(pieces[..i + 1]) == Flatten(pieces[..i]) + pieces[i]
  {
    if i == 0 {
      assert pieces[..1] == [pieces[0]] && pieces[..0] == [];
    } else {
      FlattenStep(pieces[1..], i - 1);
      assert pieces[..i + 1][1..] == pieces[1..][..i] && pieces[..i][1..] == pieces[1..][..i - 1];
    }
  }

  lemma FlattenNothing<T>(pieces: seq<seq<T>>)
    requires pieces == []
    ensures Flatten(pieces) == []
  {
  }
}
