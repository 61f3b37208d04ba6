/** String.equalsIgnoreCase, with case taken over the ASCII letters. */
module Text {
  import opened Basics

  function ToLower(c: char): char
  {
    if 'A' <= c <= 'Z' then (c as int - 'A' as int + 'a' as int) as char else c
  }

  /** Two strings of the same length whose characters agree up to case. */
  ghost predicate SameUpToCase(s: string, t: string)
  {
    |s| == |t| && forall i :: 0 <= i < |s| ==> ToLower(s[i]) == ToLower(t[i])
  }

  /** The character-by-character comparison, from the first character on. */
  function CharsMatch(s: string, t: string): (b: bool)
    requires |s| == |t|
    ensures b <==> SameUpToCase(s, t)
  {
    if s == [] then true
    else if ToLower(s[0]) != ToLower(t[0]) then false
    else
      var rest := CharsMatch(s[1..], t[1..]);
      assert forall i :: 1 <= i < |s| ==> s[i] == s[1..][i - 1] && t[i] == t[1..][i - 1];
      rest
  }

  /** s.equalsIgnoreCase(t): false for a null argument. */
  function EqualsIgnoreCase(s: string, t: Option<string>): (b: bool)
    ensures b <==> t.Some? && SameUpToCase(s, t.value)
  {
    t.Some? && |s| == |t.value| && CharsMatch(s, t.value)
  }

  lemma EqualsIgnoreCaseSymmetric(s: string, t: string)
    ensures EqualsIgnoreCase(s, Some(t)) == EqualsIgnoreCase(t, Some(s))
  {
  }

  /** The fixture rule's place "Starbucks" against descriptions of the dummy transactions. */
  lemma EqualsIgnoreCaseExample()
    ensures EqualsIgnoreCase("Starbucks", Some("STARBUCKS"))
    ensures !EqualsIgnoreCase("Starbucks", Some("McDonald's"))
    ensures !EqualsIgnoreCase("Starbucks", None)
  {
    var s, t := "Starbucks", "STARBUCKS";
    forall i | 0 <= i < |s|
      ensures ToLower(s[i]) == ToLower(t[i])
    {
      if i == 0 { assert s[0] == t[0] == 'S'; }
      else if i == 1 { assert s[1] == 't' && t[1] == 'T'; }
      else if i == 2 { assert s[2] == 'a' && t[2] == 'A'; }
      else if i == 3 { assert s[3] == 'r' && t[3] == 'R'; }
      else if i == 4 { assert s[4] == 'b' && t[4] == 'B'; }
      else if i == 5 { assert s[5] == 'u' && t[5] == 'U'; }
      else if i == 6 { assert s[6] == 'c' && t[6] == 'C'; }
      else if i == 7 { assert s[7] == 'k' && t[7] == 'K'; }
      else { assert s[8] == 's' && t[8] == 'S'; }
    }
  }
}
