/** `replace_alt_umlauts`: rewrites the two-letter spellings of German
    umlauts and sharp s into the letters themselves. */
module Umlauts {

  /** A rewrite table: each two-character key and the character replacing it. */
  type Table = map<string, char>

  /** The table the source uses.  Note "Ue" maps to lower-case u-umlaut. */
  const AltUmlauts: Table := map[
    "ae" := '\U{E4}', "Ae" := '\U{C4}',
    "oe" := '\U{F6}', "Oe" := '\U{D6}',
    "ue" := '\U{FC}', "Ue" := '\U{FC}',
    "ss" := '\U{DF}']

  /** The table with "Ue" mapped to upper-case U-umlaut, as the other
      capitalised keys are. */
  const IntendedUmlauts: Table := AltUmlauts["Ue" := '\U{DC}']

  /** `re.sub` with the alternation of the table's keys: the string is scanned
      left to right; where a key starts, its replacement is emitted and both
      of its characters are consumed, otherwise the character is kept. */
  function Rewrite(table: Table, s: string): (r: string)
    ensures |r| + Replacements(table, s) == |s|
    decreases |s|
  {
    if |s| >= 2 && s[..2] in table then [table[s[..2]]] + Rewrite(table, s[2..])
    else if s == [] then []
    else [s[0]] + Rewrite(table, s[1..])
  }

  /** The number of matches `re.sub` replaces in that scan. */
  function Replacements(table: Table, s: string): nat
    decreases |s|
  {
    if |s| >= 2 && s[..2] in table then 1 + Replacements(table, s[2..])
    else if s == [] then 0
    else Replacements(table, s[1..])
  }

  /** `replace_alt_umlauts(s)`: shorter by one character per replacement,
      and unchanged when no key occurs. */
  function ReplaceAltUmlauts(s: string): (r: string)
    ensures |r| + Replacements(AltUmlauts, s) == |s|
    ensures (forall i :: 0 <= i < |s| ==> !KeyAt(AltUmlauts, s, i)) ==> r == s
  {
    if forall i :: 0 <= i < |s| ==> !KeyAt(AltUmlauts, s, i) then
      NoKeyUnchanged(AltUmlauts, s);
      Rewrite(AltUmlauts, s)
    else
      Rewrite(AltUmlauts, s)
  }

  /** The same rewrite with the corrected table. */
  function FixUmlauts(s: string): string
  {
    Rewrite(IntendedUmlauts, s)
  }

  /** A key of the table starts at position `i` of `s`. */
  predicate KeyAt(table: Table, s: string, i: nat)
  {
    i + 2 <= |s| && s[i..i + 2] in table
  }

  /** A string in which no key occurs comes back unchanged. */
  lemma {:induction false} NoKeyUnchanged(table: Table, s: string)
    requires forall i: nat :: !KeyAt(table, s, i)
    ensures Rewrite(table, s) == s
  {
    if |s| >= 2 {
      assert !KeyAt(table, s, 0);
      var t := s[1..];
      forall i: nat ensures !KeyAt(table, t, i) {
        assert !KeyAt(table, s, i + 1);
        if i + 2 <= |t| {
          assert t[i..i + 2] == s[i + 1..i + 1 + 2];
        }
      }
      NoKeyUnchanged(table, t);
    } else if |s| == 1 {
      NoKeyUnchanged(table, s[1..]);
    }
  }

  /** Matches do not overlap and the scan resumes after a match. */
  lemma ScanExamples()
    ensures ReplaceAltUmlauts("sss") == "\U{DF}s"
    ensures ReplaceAltUmlauts("Ue") == "\U{FC}"
  {
    assert "sss"[..2] == "ss" && "sss"[2..] == "s";
    assert "s"[1..] == [];
    assert "Ue"[..2] == "Ue" && "Ue"[2..] == [];
  }

  /** The letters each umlaut of the corrected table stands for. */
  const Spellings: map<char, string> := map[
    '\U{E4}' := "ae", '\U{C4}' := "Ae",
    '\U{F6}' := "oe", '\U{D6}' := "Oe",
    '\U{FC}' := "ue", '\U{DC}' := "Ue",
    '\U{DF}' := "ss"]

  /** Writes every umlaut of `t` back as its two letters. */
  function Spelled(t: string): (s: string)
    ensures |s| >= |t|
  {
    if t == [] then []
    else (if t[0] in Spellings then Spellings[t[0]] else [t[0]]) + Spelled(t[1..])
  }

  /** The corrected table is undone by Spellings, key by key. */
  lemma SpellingsInvertIntended()
    ensures forall k :: k in IntendedUmlauts ==>
              IntendedUmlauts[k] in Spellings && Spellings[IntendedUmlauts[k]] == k
  {
    assert IntendedUmlauts.Keys == {"ae", "Ae", "oe", "Oe", "ue", "Ue", "ss"};
  }

  /** With the corrected table no information is lost: a string that holds no
      umlaut yet is recovered from its rewrite. */
  lemma {:induction false} FixUmlautsRoundTrip(s: string)
    requires forall i :: 0 <= i < |s| ==> s[i] !in Spellings
    ensures Spelled(FixUmlauts(s)) == s
  {
    var r := FixUmlauts(s);
    if |s| >= 2 && s[..2] in IntendedUmlauts {
      var t := s[2..];
      SpellingsInvertIntended();
      FixUmlautsRoundTrip(t);
      assert r == [IntendedUmlauts[s[..2]]] + FixUmlauts(t);
      assert r[1..] == FixUmlauts(t);
      assert s == s[..2] + t;
    } else if s != [] {
      var t := s[1..];
      FixUmlautsRoundTrip(t);
      assert r == [s[0]] + FixUmlauts(t);
      assert r[1..] == FixUmlauts(t);
      assert s == [s[0]] + t;
    }
  }

  /** The source's table loses the capital: "Ue" and "ue" both become
      lower-case u-umlaut, so "Ue" cannot be recovered from the rewrite. */
  lemma AsWrittenLosesCapitalU()
    ensures ReplaceAltUmlauts("Ue") == ReplaceAltUmlauts("ue") == "\U{FC}"
    ensures Spelled(ReplaceAltUmlauts("Ue")) != "Ue"
    ensures FixUmlauts("Ue") == "\U{DC}" && Spelled(FixUmlauts("Ue")) == "Ue"
  {
    assert "Ue"[..2] == "Ue" && "Ue"[2..] == [];
    assert "ue"[..2] == "ue" && "ue"[2..] == [];
    assert Spelled("\U{FC}") == "ue";
    assert Spelled("\U{DC}") == "Ue";
  }
}
