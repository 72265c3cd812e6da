/** Definitions shared by the models. */
module Common {

  datatype Option<T> = None | Some(value: T)

  ghost predicate Distinct(s: seq<nat>) {
    forall i, j | 0 <= i < j < |s| :: s[i] != s[j]
  }

  // 2^32
  const WORD: nat := 0x1_0000_0000

  /** What a 32-bit unsigned word keeps of a number. */
  function Mod(x: nat): (r: nat)
    ensures r < WORD
  {
    x % WORD
  }

  lemma ModOfSum(a: nat, q: nat)
    ensures Mod(a + WORD * q) == Mod(a)
  {
  }

  lemma ModAdds(x: nat, y: nat)
    ensures Mod(Mod(x) + y) == Mod(x + y) && Mod(x + Mod(y)) == Mod(x + y)
  {
    ModOfSum(Mod(x) + y, x / WORD);
    ModOfSum(x + Mod(y), y / WORD);
  }
}
