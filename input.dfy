/** Keyboard state with edge detection between two consecutive ticks. */
module Inputs {

  /** The logical keys (Input::Key); KSize is the number of keys. */
  const PlayerUp := 0
  const PlayerDown := 1
  const PlayerLeft := 2
  const PlayerRight := 3
  const PlayerAction := 4
  const Exit := 5
  const KSize := 6

  class Input {
    /** Whether each key is held in this tick and in the previous one. */
    const keyStatus: array<bool>
    const oldKeyStatus: array<bool>

    predicate Valid() {
      keyStatus.Length == KSize && oldKeyStatus.Length == KSize && keyStatus != oldKeyStatus
    }

    /** The two status arrays start with unspecified contents. */
    constructor ()
      ensures Valid() && fresh(keyStatus) && fresh(oldKeyStatus)
    {
      keyStatus := new bool[KSize];
      oldKeyStatus := new bool[KSize];
    }

    /**
     * Refreshes the key states from `held`, the physical state of each
     * logical key, after saving the current states as the previous ones.
     */
    method Update(held: seq<bool>)
      requires Valid() && |held| == KSize
      modifies keyStatus, oldKeyStatus
      ensures oldKeyStatus[..] == old(keyStatus[..])
      ensures keyStatus[..] == held
      ensures forall k | 0 <= k < KSize :: KeyPressed(k) <==> held[k] && !old(keyStatus[k])
      ensures forall k | 0 <= k < KSize :: KeyReleased(k) <==> !held[k] && old(keyStatus[k])
    {
      for k := 0 to KSize
        invariant forall j | 0 <= j < k :: oldKeyStatus[j] == keyStatus[j]
        invariant keyStatus[..] == old(keyStatus[..])
      {
        oldKeyStatus[k] := keyStatus[k];
      }
      for k := 0 to KSize
        invariant oldKeyStatus[..] == old(keyStatus[..])
        invariant forall j | 0 <= j < k :: keyStatus[j] == held[j]
      {
        keyStatus[k] := held[k];
      }
    }

    function KeyDown(key: int): bool
      requires Valid() && 0 <= key < KSize
      reads keyStatus
    {
      keyStatus[key]
    }

    /** Held now and not held in the previous tick. */
    function KeyPressed(key: int): (r: bool)
      requires Valid() && 0 <= key < KSize
      reads keyStatus, oldKeyStatus
      ensures r ==> KeyDown(key)
    {
      keyStatus[key] && !oldKeyStatus[key]
    }

    /** Not held now and held in the previous tick. */
    function KeyReleased(key: int): (r: bool)
      requires Valid() && 0 <= key < KSize
      reads keyStatus, oldKeyStatus
      ensures r ==> !KeyDown(key)
    {
      !keyStatus[key] && oldKeyStatus[key]
    }
  }

  /** A key is never both freshly pressed and freshly released. */
  lemma PressedExcludesReleased(input: Input, key: int)
    requires input.Valid() && 0 <= key < KSize
    ensures !(input.KeyPressed(key) && input.KeyReleased(key))
  {
  }

  /**
   * Two updates with the same physical state leave no key pressed or
   * released, whatever the state before them.
   */
  method SteadyKeysHaveNoEdges(input: Input, held: seq<bool>)
    requires input.Valid() && |held| == KSize
    modifies input.keyStatus, input.oldKeyStatus
    ensures forall k | 0 <= k < KSize :: !input.KeyPressed(k) && !input.KeyReleased(k)
    ensures forall k | 0 <= k < KSize :: input.KeyDown(k) == held[k]
  {
    input.Update(held);
    input.Update(held);
  }
}
