/**
 * The key table of the host tool's button command: key names and the
 * firmware key codes they stand for.
 */
module KeyTable {
  import opened Bytes

  const KEY_MAP: map<string, byte> := map[
    "0" := 0, "1" := 1, "2" := 2, "3" := 3, "4" := 4,
    "5" := 5, "6" := 6, "7" := 7, "8" := 8, "9" := 9,
    "MENU" := 10, "UP" := 11, "DOWN" := 12, "EXIT" := 13,
    "STAR" := 14, "F" := 15, "SIDE2" := 17, "SIDE1" := 18
  ]

  /** The codes of the key table: 0-15, 17 and 18. */
  const KEY_CODES: set<byte> := {0, 1, 2, 3, 4, 5, 6, 7, 8, 9, 10, 11, 12, 13, 14, 15, 17, 18}

  // The names of the key table, grouped by length.
  const ONE_CHAR_KEYS: set<string> := {"0", "1", "2", "3", "4", "5", "6", "7", "8", "9", "F"}
  const LONGER_KEYS: set<string> := {"UP", "MENU", "DOWN", "EXIT", "STAR", "SIDE2", "SIDE1"}

  lemma KeyNames()
    ensures KEY_MAP.Keys == ONE_CHAR_KEYS + LONGER_KEYS
  {
  }

  lemma OneCharKeysCount()
    ensures |ONE_CHAR_KEYS| == 11
  {
  }

  lemma LongerKeysCount()
    ensures |LONGER_KEYS| == 7
  {
    assert |{"MENU", "DOWN", "EXIT", "STAR"}| == 4;
    assert |{"SIDE2", "SIDE1"}| == 2;
  }

  lemma KeyGroupsDisjoint()
    ensures ONE_CHAR_KEYS !! LONGER_KEYS
  {
    assert forall name :: name in ONE_CHAR_KEYS ==> |name| == 1;
    assert forall name :: name in LONGER_KEYS ==> |name| > 1;
  }

  /** The key table has 18 names. */
  lemma KeyMapSize()
    ensures |KEY_MAP| == 18
  {
    KeyNames();
    OneCharKeysCount();
    LongerKeysCount();
    KeyGroupsDisjoint();
  }

  // Entries of the key table, a few names at a time.
  lemma EntriesDigitsLow()
    ensures KEY_MAP["0"] == 0 && KEY_MAP["1"] == 1 && KEY_MAP["2"] == 2
  {
  }

  lemma EntriesDigitsMid()
    ensures KEY_MAP["3"] == 3 && KEY_MAP["4"] == 4 && KEY_MAP["5"] == 5
  {
  }

  lemma EntriesDigitsHigh()
    ensures KEY_MAP["6"] == 6 && KEY_MAP["7"] == 7 && KEY_MAP["8"] == 8
  {
  }

  lemma EntriesNavigation()
    ensures KEY_MAP["9"] == 9 && KEY_MAP["MENU"] == 10 && KEY_MAP["UP"] == 11
  {
  }

  lemma EntriesFunction()
    ensures KEY_MAP["DOWN"] == 12 && KEY_MAP["EXIT"] == 13 && KEY_MAP["STAR"] == 14
  {
  }

  lemma EntriesSide()
    ensures KEY_MAP["F"] == 15 && KEY_MAP["SIDE2"] == 17 && KEY_MAP["SIDE1"] == 18
  {
  }

  /** The key table uses exactly the codes 0-15, 17 and 18; 16, the PTT
      key, is absent. */
  lemma KeyMapCodes()
    ensures KEY_MAP.Values == KEY_CODES
    ensures 16 !in KEY_MAP.Values
  {
    KeyMapValuesInRange();
    EveryCodeNamed();
  }

  lemma KeyMapValuesInRange()
    ensures KEY_MAP.Values <= KEY_CODES
  {
  }

  /** Every code of the key table is at most 18 and is not 16. */
  lemma KeyMapEntriesBounded()
    ensures forall name :: name in KEY_MAP ==> KEY_MAP[name] <= 18 && KEY_MAP[name] != 16
  {
  }

  lemma EveryCodeNamed()
    ensures KEY_CODES <= KEY_MAP.Values
  {
    EntriesDigitsLow();
    EntriesDigitsMid();
    EntriesDigitsHigh();
    EntriesNavigation();
    EntriesFunction();
    EntriesSide();
  }

  /** No two names of the key table share a code. */
  lemma KeyMapInjective()
    ensures forall a, b :: a in KEY_MAP && b in KEY_MAP && KEY_MAP[a] == KEY_MAP[b] ==> a == b
  {
  }

  /** No lower-case letter in `s`. */
  ghost predicate NoLowerCase(s: string)
  {
    forall i :: 0 <= i < |s| ==> !('a' <= s[i] <= 'z')
  }

  lemma OneCharKeysUpperCase()
    ensures forall name :: name in ONE_CHAR_KEYS ==> NoLowerCase(name)
  {
  }

  lemma LongerKeysUpperCase()
    ensures forall name :: name in LONGER_KEYS ==> NoLowerCase(name)
  {
  }

  /** The names of the key table are written in upper case. */
  lemma KeyNamesUpperCase()
    ensures forall name :: name in KEY_MAP ==> NoLowerCase(name)
  {
    KeyNames();
    OneCharKeysUpperCase();
    LongerKeysUpperCase();
  }
}
