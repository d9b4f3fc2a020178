/** The identifier generator `RandStringRunes` of main.go. The pseudo-random draws
    `rand.Intn(26)` are supplied by the caller as `picks`, one index per character. */
module IdGen {

  /** The alphabet identifiers are drawn from. */
  const LetterRunes: string := "abcdefghijklmnopqrstuvwxyz"

  /** Length of the identifiers `createUser` generates. */
  const IdLength: nat := 8

  predicate IsLower(c: char) {
    'a' <= c <= 'z'
  }

  /** A string made only of lowercase Latin letters. */
  predicate IsLowerWord(s: string) {
    forall i :: 0 <= i < |s| ==> IsLower(s[i])
  }

  /** Every draw is a valid index into the alphabet, as `rand.Intn(len(letterRunes))` promises. */
  predicate ValidPicks(picks: seq<nat>) {
    forall i :: 0 <= i < |picks| ==> picks[i] < |LetterRunes|
  }

  /** The alphabet is the 26 letters `a` to `z` in order. */
  lemma AlphabetInOrder(i: nat)
    requires i < 26
    ensures |LetterRunes| == 26
    ensures LetterRunes[i] as int == 'a' as int + i
  {
  }

  /** The identifier a sequence of draws spells: one letter per draw. */
  function Spell(picks: seq<nat>): (s: string)
    requires ValidPicks(picks)
    ensures |s| == |picks|
    ensures forall i :: 0 <= i < |s| ==> s[i] == LetterRunes[picks[i]]
    ensures IsLowerWord(s)
  {
    if |picks| == 0 then ""
    else
      AlphabetInOrder(picks[0]);
      [LetterRunes[picks[0]]] + Spell(picks[1..])
  }

  /** The draw that yields the lowercase letter `c`. */
  function PickOf(c: char): (p: nat)
    requires IsLower(c)
    ensures p < 26
  {
    c as int - 'a' as int
  }

  /** The draws that spell the lowercase word `s`. */
  function PicksOf(s: string): (picks: seq<nat>)
    requires IsLowerWord(s)
    ensures |picks| == |s| && ValidPicks(picks)
  {
    AlphabetInOrder(0);
    seq(|s|, i requires 0 <= i < |s| => PickOf(s[i]))
  }

  /** Every lowercase word is an identifier the generator can produce. */
  lemma SpellPicksOf(s: string)
    requires IsLowerWord(s)
    ensures Spell(PicksOf(s)) == s
  {
  }

  /** Different draws give different identifiers. */
  lemma PicksOfSpell(picks: seq<nat>)
    requires ValidPicks(picks)
    ensures PicksOf(Spell(picks)) == picks
  {
  }

  /** `RandStringRunes(n)`: fills a rune buffer of length `n` with one letter per draw. */
  method RandStringRunes(n: nat, picks: seq<nat>) returns (s: string)
    requires |picks| == n && ValidPicks(picks)
    ensures s == Spell(picks)
    ensures |s| == n && IsLowerWord(s)
  {
    var b := new char[n];
    for i := 0 to n
      invariant forall j :: 0 <= j < i ==> b[j] == LetterRunes[picks[j]]
    {
      b[i] := LetterRunes[picks[i]];
    }
    s := b[..];
  }
}
