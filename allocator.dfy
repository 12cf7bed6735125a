/**
  The identifier allocator of membres/models.py: the two-character code of an
  association (Association.get_unique_code and
  Association._is_code_used_by_other_association) and the card number
  "{count:04d}{code}" that Membre.save builds from it.
*/
module Allocator {
  import opened Wrappers
  import opened Text
  import opened Entities

  // ---------------------------------------------------------------------------
  // The letters of a name
  // ---------------------------------------------------------------------------

  /** ''.join(c for c in nom.upper() if c.isalpha()) */
  function Letters(nom: string): string {
    KeepAlpha(Upper(nom))
  }

  /** The letters of the name in the name's order, each upper-cased on its own. */
  function UpperOfLetters(nom: string): string {
    if nom == [] then [] else (if IsAlpha(nom[0]) then UpperChar(nom[0]) else []) + UpperOfLetters(nom[1..])
  }

  /** Filtering after upper-casing (as the source does) equals upper-casing the letters
      of the name one by one, in the name's order. */
  lemma {:induction false} LettersKeepNameOrder(nom: string)
    ensures Letters(nom) == UpperOfLetters(nom)
  {
    if nom != [] {
      assert Upper(nom) == UpperChar(nom[0]) + Upper(nom[1..]);
      KeepAlphaAppend(UpperChar(nom[0]), Upper(nom[1..]));
      LettersKeepNameOrder(nom[1..]);
      UpperCharFacts(nom[0]);
      if IsAlpha(nom[0]) {
        KeepAlphaOfLetters(UpperChar(nom[0]));
      }
    }
  }

  lemma {:induction false} UpperOfLettersAreCapitals(nom: string)
    ensures forall i :: 0 <= i < |UpperOfLetters(nom)| ==>
      IsAlpha(UpperOfLetters(nom)[i]) && UpperChar(UpperOfLetters(nom)[i]) == [UpperOfLetters(nom)[i]]
  {
    if nom != [] {
      UpperCharFacts(nom[0]);
      UpperOfLettersAreCapitals(nom[1..]);
    }
  }

  /** Every candidate letter is a letter that upper-casing leaves unchanged. */
  lemma LettersAreCapitals(nom: string)
    ensures forall i :: 0 <= i < |Letters(nom)| ==>
      IsAlpha(Letters(nom)[i]) && UpperChar(Letters(nom)[i]) == [Letters(nom)[i]]
  {
    LettersKeepNameOrder(nom);
    UpperOfLettersAreCapitals(nom);
  }

  /** A name made only of letters upper-cases letter by letter. */
  lemma {:induction false} LettersOfAllLetters(nom: string)
    requires forall i :: 0 <= i < |nom| ==> IsAlpha(nom[i])
    ensures Letters(nom) == Upper(nom)
  {
    LettersKeepNameOrder(nom);
    UpperOfAllLetters(nom);
  }

  lemma {:induction false} UpperOfAllLetters(nom: string)
    requires forall i :: 0 <= i < |nom| ==> IsAlpha(nom[i])
    ensures UpperOfLetters(nom) == Upper(nom)
  {
    if nom != [] {
      UpperOfAllLetters(nom[1..]);
    }
  }

  // ---------------------------------------------------------------------------
  // The association code
  // ---------------------------------------------------------------------------

  /** The numero_carte__endswith lookup (case-sensitive). */
  predicate EndsWith(s: string, suffix: string) {
    |suffix| <= |s| && s[|s| - |suffix|..] == suffix
  }

  /** _is_code_used_by_other_association: some member of another association has a
      card number ending in the code. */
  predicate CodeUsedByOther(members: seq<Member>, assoc: nat, code: string) {
    exists m :: m in members && m.association != assoc && EndsWith(m.numeroCarte, code)
  }

  /** The two-letter candidates, in the order they are tried. */
  function Candidates(letters: string): seq<string> {
    (if |letters| >= 2 then [letters[..2]] else [])
    + (if |letters| >= 3 then [[letters[0], letters[2]]] else [])
    + (if |letters| >= 4 then [[letters[0], letters[3]], [letters[1], letters[3]]] else [])
  }

  /** f"{letters[0] if letters else 'X'}{id % 100:01d}" */
  function Fallback(letters: string, id: nat): string {
    [if |letters| > 0 then letters[0] else 'X'] + Decimal(id % 100)
  }

  /** Association.get_unique_code */
  function UniqueCode(a: Association, members: seq<Member>): (code: string)
    ensures 2 <= |code| <= 3
    ensures !IsDigit(code[0])
  {
    LettersAreCapitals(a.nom);
    CodeFromLetters(Letters(a.nom), a.id, members)
  }

  /** The candidate search of get_unique_code, given the letters of the name. */
  function CodeFromLetters(letters: string, id: nat, members: seq<Member>): (code: string)
    requires forall i :: 0 <= i < |letters| ==> IsAlpha(letters[i])
    ensures 2 <= |code| <= 3
    ensures !IsDigit(code[0])
  {
    DecimalLengthBelow100(id % 100);
    assert |letters| > 0 ==> IsAlpha(letters[0]);
    assert |letters| > 1 ==> IsAlpha(letters[1]);
    if |letters| >= 2 && !CodeUsedByOther(members, id, letters[..2]) then letters[..2]
    else if |letters| >= 3 && !CodeUsedByOther(members, id, [letters[0], letters[2]]) then [letters[0], letters[2]]
    else if |letters| >= 4 && !CodeUsedByOther(members, id, [letters[0], letters[3]]) then [letters[0], letters[3]]
    else if |letters| >= 4 && !CodeUsedByOther(members, id, [letters[1], letters[3]]) then [letters[1], letters[3]]
    else Fallback(letters, id)
  }

  /** The position of the first candidate no other association uses, if any. */
  function FirstFree(cands: seq<string>, members: seq<Member>, assoc: nat): (r: Option<nat>)
    ensures r.Some? ==> r.value < |cands| && !CodeUsedByOther(members, assoc, cands[r.value])
    ensures r.Some? ==> forall j :: 0 <= j < r.value ==> CodeUsedByOther(members, assoc, cands[j])
    ensures r.None? ==> forall j :: 0 <= j < |cands| ==> CodeUsedByOther(members, assoc, cands[j])
  {
    if cands == [] then None
    else if !CodeUsedByOther(members, assoc, cands[0]) then Some(0)
    else match FirstFree(cands[1..], members, assoc)
      case None => None
      case Some(k) => Some(k + 1)
  }

  /** The code searched from a list of candidates: the first free one, else the fallback. */
  function FirstFreeOr(cands: seq<string>, members: seq<Member>, assoc: nat, fallback: string): string {
    match FirstFree(cands, members, assoc)
    case Some(k) => cands[k]
    case None => fallback
  }

  /** One step of the search: the head when it is free, otherwise the search of the rest. */
  lemma FirstFreeOrStep(cands: seq<string>, members: seq<Member>, assoc: nat, fallback: string)
    requires cands != []
    ensures FirstFreeOr(cands, members, assoc, fallback) ==
      if !CodeUsedByOther(members, assoc, cands[0]) then cands[0]
      else FirstFreeOr(cands[1..], members, assoc, fallback)
  {
    if CodeUsedByOther(members, assoc, cands[0]) {
      match FirstFree(cands[1..], members, assoc)
      case None =>
      case Some(k) => assert cands[k + 1] == cands[1..][k];
    }
  }

  lemma CodeFromLettersIsFirstFree(letters: string, id: nat, members: seq<Member>)
    requires forall i :: 0 <= i < |letters| ==> IsAlpha(letters[i])
    ensures CodeFromLetters(letters, id, members) == FirstFreeOr(Candidates(letters), members, id, Fallback(letters, id))
  {
    var cands := Candidates(letters);
    var fb := Fallback(letters, id);
    if |letters| >= 2 {
      FirstFreeOrStep(cands, members, id, fb);
    }
    if |letters| >= 3 {
      FirstFreeOrStep(cands[1..], members, id, fb);
      assert cands[1..][1..] == cands[2..];
    }
    if |letters| >= 4 {
      FirstFreeOrStep(cands[2..], members, id, fb);
      assert cands[2..][1..] == cands[3..];
      FirstFreeOrStep(cands[3..], members, id, fb);
      assert cands[3..][1..] == [];
    } else if |letters| == 3 {
      assert cands[2..] == [];
    } else if |letters| == 2 {
      assert cands[1..] == [];
    } else {
      assert cands == [];
    }
  }

  /** The code is the first candidate that no other association uses; when every
      candidate is used, or there are fewer than two letters, it is the fallback. */
  lemma UniqueCodeIsFirstFree(a: Association, members: seq<Member>)
    ensures UniqueCode(a, members) == FirstFreeOr(Candidates(Letters(a.nom)), members, a.id, Fallback(Letters(a.nom), a.id))
  {
    LettersAreCapitals(a.nom);
    CodeFromLettersIsFirstFree(Letters(a.nom), a.id, members);
  }

  /** A code other than the fallback is never used by another association. */
  lemma UniqueCodeFreeUnlessFallback(a: Association, members: seq<Member>)
    ensures UniqueCode(a, members) != Fallback(Letters(a.nom), a.id) ==>
      UniqueCode(a, members) in Candidates(Letters(a.nom)) && !CodeUsedByOther(members, a.id, UniqueCode(a, members))
  {
    UniqueCodeIsFirstFree(a, members);
  }

  /** The fallback is two characters long when id % 100 < 10 and three otherwise. */
  lemma FallbackLength(letters: string, id: nat)
    ensures |Fallback(letters, id)| == if id % 100 < 10 then 2 else 3
  {
    DecimalLengthBelow100(id % 100);
  }

  /** Only members of other associations matter: the association's own members,
      whatever their card numbers, never change its code. */
  lemma UniqueCodeIgnoresOwnMembers(a: Association, ms1: seq<Member>, ms2: seq<Member>)
    requires forall m :: m in ms1 && m.association != a.id ==> m in ms2
    requires forall m :: m in ms2 && m.association != a.id ==> m in ms1
    ensures UniqueCode(a, ms1) == UniqueCode(a, ms2)
  {
    forall code: string
      ensures CodeUsedByOther(ms1, a.id, code) == CodeUsedByOther(ms2, a.id, code)
    {
      if CodeUsedByOther(ms1, a.id, code) {
        var m :| m in ms1 && m.association != a.id && EndsWith(m.numeroCarte, code);
        assert m in ms2;
      }
      if CodeUsedByOther(ms2, a.id, code) {
        var m :| m in ms2 && m.association != a.id && EndsWith(m.numeroCarte, code);
        assert m in ms1;
      }
    }
  }

  /** The fallback is not checked against other associations: two associations
      named "A" whose ids agree modulo 100 both get "A5", even when one of them
      already prints it on a card. */
  lemma FallbackMayCollide()
    ensures var holder := Member(1, 5, "Rabe", "Hery", "101", "0001A5", None, None);
      && UniqueCode(Association(5, "A"), []) == "A5"
      && CodeUsedByOther([holder], 105, "A5")
      && UniqueCode(Association(105, "A"), [holder]) == "A5"
  {
    var holder := Member(1, 5, "Rabe", "Hery", "101", "0001A5", None, None);
    assert Letters("A") == "A";
    assert EndsWith(holder.numeroCarte, "A5");
  }

  // ---------------------------------------------------------------------------
  // The card number
  // ---------------------------------------------------------------------------

  /** Membre.objects.filter(association=assoc).count() */
  function CountIn(members: seq<Member>, assoc: nat): nat {
    if members == [] then 0
    else CountIn(members[..|members| - 1], assoc) + (if members[|members| - 1].association == assoc then 1 else 0)
  }

  /** f"{count:04d}{code}" where count is the number of stored members plus one. */
  function CardNumber(stored: nat, code: string): string {
    Pad4(stored + 1) + code
  }

  /** How many digits a string starts with. */
  function LeadingDigits(s: string): (n: nat)
    ensures n <= |s| && AllDigits(s[..n])
    ensures n < |s| ==> !IsDigit(s[n])
  {
    if s == [] || !IsDigit(s[0]) then 0
    else
      var n := 1 + LeadingDigits(s[1..]);
      assert s[..n] == [s[0]] + s[1..][..n - 1];
      n
  }

  /** Reads a card number back as (sequence number, association code). */
  function ParseCardNumber(s: string): (nat, string) {
    var n := LeadingDigits(s);
    (DigitsValue(s[..n]), s[n..])
  }

  lemma {:induction false} LeadingDigitsOfDigitsThen(d: string, rest: string)
    requires AllDigits(d)
    requires rest == [] || !IsDigit(rest[0])
    ensures LeadingDigits(d + rest) == |d|
  {
    if d != [] {
      assert (d + rest)[1..] == d[1..] + rest;
      LeadingDigitsOfDigitsThen(d[1..], rest);
    } else {
      assert d + rest == rest;
    }
  }

  /** A card number reads back as the member's rank in its association and the code
      it was built from; the rank is four digits while it stays below 10000. */
  lemma CardNumberRoundTrip(stored: nat, code: string)
    requires code == [] || !IsDigit(code[0])
    ensures ParseCardNumber(CardNumber(stored, code)) == (stored + 1, code)
    ensures EndsWith(CardNumber(stored, code), code)
    ensures stored + 1 < 10000 ==> |CardNumber(stored, code)| == 4 + |code|
  {
    var p := Pad4(stored + 1);
    Pad4Facts(stored + 1);
    LeadingDigitsOfDigitsThen(p, code);
    var s := CardNumber(stored, code);
    assert s[..|p|] == p;
    assert s[|p|..] == code;
  }

  /** The count is not a sequence: after a deletion, count + 1 gives again the number
      of a member still stored, so only the unique index on numero_carte stops it. */
  lemma CountRepeatsAfterDeletion()
    ensures var first := Member(1, 7, "Rakoto", "Aina", "101", CardNumber(CountIn([], 7), "AE"), None, None);
      var second := Member(2, 7, "Rabe", "Hery", "102", CardNumber(CountIn([first], 7), "AE"), None, None);
      CardNumber(CountIn([second], 7), "AE") == second.numeroCarte
  {
  }
}
