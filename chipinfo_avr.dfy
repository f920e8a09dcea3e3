/** The host's table of known AVR parts and the lookup of a part's name by
    the three signature bytes the bootloader reports
    (linux/chipinfo_avr.c:30-52). */
module ChipinfoAvr {
  import opened Wire

  /** One table entry, `struct chipinfo`: three signature bytes and a name. */
  datatype Chip = Chip(sig: (byte, byte, byte), name: string)

  /** The name returned when no entry matches. */
  const UNKNOWN: string := "unknown"

  /** `chips[]`, in table order. */
  const CHIPS: seq<Chip> := [
    Chip((0x1E, 0x93, 0x07), "AVR Mega 8"),
    Chip((0x1E, 0x93, 0x0A), "AVR Mega 88"),
    Chip((0x1E, 0x94, 0x06), "AVR Mega 168"),
    Chip((0x1E, 0x95, 0x02), "AVR Mega 32")
  ]

  /** The entry's three signature bytes equal the first three of `sig`. */
  predicate Matches(chip: Chip, sig: seq<byte>)
    requires |sig| >= 3
  {
    chip.sig.0 == sig[0] && chip.sig.1 == sig[1] && chip.sig.2 == sig[2]
  }

  /** The name the search finds when it starts at entry `k` of `table`:
      the first matching entry's, or UNKNOWN past the end. */
  function NameFrom(table: seq<Chip>, sig: seq<byte>, k: nat): string
    requires |sig| >= 3 && k <= |table|
    decreases |table| - k
  {
    if k == |table| then UNKNOWN
    else if Matches(table[k], sig) then table[k].name
    else NameFrom(table, sig, k + 1)
  }

  /** The name chipinfo_get_avr_name returns for `sig`. */
  function AvrName(sig: seq<byte>): string
    requires |sig| >= 3
  {
    NameFrom(CHIPS, sig, 0)
  }

  /** chipinfo_get_avr_name: walks the table in order and returns the name
      of the first entry that matches, "unknown" when none does. */
  method GetAvrName(sig: seq<byte>) returns (name: string)
    requires |sig| >= 3
    ensures name == AvrName(sig)
  {
    var i := 0;
    while i < |CHIPS|
      invariant 0 <= i <= |CHIPS|
      invariant NameFrom(CHIPS, sig, i) == AvrName(sig)
    {
      var chip := CHIPS[i];
      if chip.sig.0 == sig[0] && chip.sig.1 == sig[1] && chip.sig.2 == sig[2] {
        return chip.name;
      }
      i := i + 1;
    }
    return UNKNOWN;
  }

  /** The first matching entry at or after `k` decides the name. */
  lemma {:induction false} FirstMatchWins(table: seq<Chip>, sig: seq<byte>, i: nat, k: nat)
    requires |sig| >= 3 && k <= i < |table| && Matches(table[i], sig)
    requires forall j :: k <= j < i ==> !Matches(table[j], sig)
    ensures NameFrom(table, sig, k) == table[i].name
    decreases i - k
  {
    if k < i {
      FirstMatchWins(table, sig, i, k + 1);
    }
  }

  /** With no matching entry at or after `k` the name is "unknown". */
  lemma {:induction false} NoMatchUnknown(table: seq<Chip>, sig: seq<byte>, k: nat)
    requires |sig| >= 3 && k <= |table|
    requires forall j :: k <= j < |table| ==> !Matches(table[j], sig)
    ensures NameFrom(table, sig, k) == UNKNOWN
    decreases |table| - k
  {
    if k < |table| {
      NoMatchUnknown(table, sig, k + 1);
    }
  }

  /** No two entries share a signature. */
  predicate DistinctSignatures(table: seq<Chip>)
  {
    forall i, j :: 0 <= i < j < |table| ==> table[i].sig != table[j].sig
  }

  lemma ChipsDistinct()
    ensures DistinctSignatures(CHIPS)
  {
  }

  /** In a table without duplicate signatures a matching entry is the
      only one, hence the first, and its name is the result. */
  lemma UniqueMatch(table: seq<Chip>, sig: seq<byte>, i: nat)
    requires |sig| >= 3 && DistinctSignatures(table)
    requires i < |table| && Matches(table[i], sig)
    ensures NameFrom(table, sig, 0) == table[i].name
  {
    forall j | 0 <= j < i
      ensures !Matches(table[j], sig)
    {
      assert table[j].sig != table[i].sig;
    }
    FirstMatchWins(table, sig, i, 0);
  }

  /** Entry order does not matter: two orderings of the same entries
      without duplicate signatures name every signature alike. */
  lemma OrderIrrelevant(t1: seq<Chip>, t2: seq<Chip>, sig: seq<byte>)
    requires |sig| >= 3 && multiset(t1) == multiset(t2)
    requires DistinctSignatures(t1) && DistinctSignatures(t2)
    ensures NameFrom(t1, sig, 0) == NameFrom(t2, sig, 0)
  {
    if i :| 0 <= i < |t1| && Matches(t1[i], sig) {
      UniqueMatch(t1, sig, i);
      assert t1[i] in multiset(t2);
      var k :| 0 <= k < |t2| && t2[k] == t1[i];
      UniqueMatch(t2, sig, k);
    } else {
      NoMatchUnknown(t1, sig, 0);
      forall j | 0 <= j < |t2|
        ensures !Matches(t2[j], sig)
      {
        assert t2[j] in multiset(t1);
      }
      NoMatchUnknown(t2, sig, 0);
    }
  }

  /** Every part in the table is named by its own signature. */
  lemma ListedChipsNamed(i: nat)
    requires i < |CHIPS|
    ensures AvrName([CHIPS[i].sig.0, CHIPS[i].sig.1, CHIPS[i].sig.2]) == CHIPS[i].name
  {
    ChipsDistinct();
    UniqueMatch(CHIPS, [CHIPS[i].sig.0, CHIPS[i].sig.1, CHIPS[i].sig.2], i);
  }

  /** The ATmega8, the part the bootloader's own build targets. */
  lemma Mega8Named()
    ensures AvrName([0x1E, 0x93, 0x07]) == "AVR Mega 8"
  {
    ListedChipsNamed(0);
  }

  /** A signature no entry carries, such as the all-zero one the host holds
      before the chip information is read, is "unknown". */
  lemma UnlistedChipUnknown(sig: seq<byte>)
    requires |sig| >= 3 && forall i :: 0 <= i < |CHIPS| ==> CHIPS[i].sig != (sig[0], sig[1], sig[2])
    ensures AvrName(sig) == UNKNOWN
  {
    NoMatchUnknown(CHIPS, sig, 0);
  }
}
