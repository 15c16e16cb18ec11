/**
 * The audio keyword table: `readAudioConfig` reads whitespace-separated words
 * `key value key value ...` and stores each pair in the global `audioMap`,
 * later pairs overwriting earlier ones and a trailing odd word ignored.
 * The word scanner is abstracted: the model receives the word sequence, or
 * `None` when the configuration file could not be opened.
 */
module AudioConfig {
  import opened Wrappers

  /** `j` is the index of a key: even, and followed by its value. */
  ghost predicate IsKeyIndex(words: seq<string>, j: int)
  {
    0 <= j && j + 1 < |words| && j % 2 == 0
  }

  /** `j` is the last key index at which `k` stands. */
  ghost predicate IsLastKeyIndex(words: seq<string>, j: int, k: string)
  {
    IsKeyIndex(words, j) && words[j] == k &&
    forall j' :: j < j' && IsKeyIndex(words, j') ==> words[j'] != k
  }

  /**
   * The table after the pairing loop has run over `words`, starting from `m`.
   * Defined on prefixes, as the loop grows its index: an odd-length sequence
   * loads as its even-length prefix, and an even-length one as its prefix
   * without the last pair, updated with that pair.
   */
  function Loaded(m: map<string, string>, words: seq<string>): map<string, string>
    decreases |words|
  {
    if |words| < 2 then m
    else if |words| % 2 == 1 then Loaded(m, words[..|words| - 1])
    else Loaded(m, words[..|words| - 2])[words[|words| - 2] := words[|words| - 1]]
  }

  /**
   * What the table holds after loading, key by key: a key is present iff it
   * was present before or stands at a key index; a key stands at a key
   * index maps to the value after its LAST occurrence at a key index; any
   * other key keeps its old entry.
   */
  lemma {:induction false} LoadedLookup(m: map<string, string>, words: seq<string>, k: string)
    ensures k in Loaded(m, words) <==> k in m || exists j :: IsKeyIndex(words, j) && words[j] == k
    ensures (forall j :: IsKeyIndex(words, j) ==> words[j] != k) && k in m ==> Loaded(m, words)[k] == m[k]
    ensures forall j :: IsLastKeyIndex(words, j, k) ==>
              k in Loaded(m, words) && Loaded(m, words)[k] == words[j + 1]
    decreases |words|
  {
    var n := |words|;
    if n < 2 {
      assert forall j :: !IsKeyIndex(words, j);
    } else if n % 2 == 1 {
      var p := words[..n - 1];
      LoadedLookup(m, p, k);
      assert forall j :: IsKeyIndex(words, j) <==> IsKeyIndex(p, j);
      assert forall j :: IsKeyIndex(p, j) ==> p[j] == words[j] && p[j + 1] == words[j + 1];
      forall j | IsLastKeyIndex(words, j, k)
        ensures IsLastKeyIndex(p, j, k)
      {
      }
    } else {
      var p := words[..n - 2];
      LoadedLookup(m, p, k);
      assert forall j :: IsKeyIndex(words, j) <==> IsKeyIndex(p, j) || j == n - 2;
      assert forall j :: IsKeyIndex(p, j) ==> p[j] == words[j] && p[j + 1] == words[j + 1];
      if k == words[n - 2] {
        forall j | IsLastKeyIndex(words, j, k)
          ensures j == n - 2
        {
          assert !(j < n - 2 && IsKeyIndex(words, n - 2));
        }
      } else {
        forall j | IsLastKeyIndex(words, j, k)
          ensures IsLastKeyIndex(p, j, k)
        {
        }
      }
    }
  }

  /** Loading adds at most one new key per complete pair. */
  lemma {:induction false} LoadedAddsAtMostHalf(m: map<string, string>, words: seq<string>)
    ensures m.Keys <= Loaded(m, words).Keys
    ensures |Loaded(m, words).Keys - m.Keys| <= |words| / 2
    decreases |words|
  {
    var n := |words|;
    if n < 2 {
      assert Loaded(m, words).Keys - m.Keys == {};
    } else if n % 2 == 1 {
      LoadedAddsAtMostHalf(m, words[..n - 1]);
    } else {
      var before := Loaded(m, words[..n - 2]);
      LoadedAddsAtMostHalf(m, words[..n - 2]);
      var added := before.Keys - m.Keys;
      var w := words[n - 2];
      assert Loaded(m, words) == before[w := words[n - 1]];
      assert Loaded(m, words).Keys - m.Keys <= added + {w};
      SubsetCard(Loaded(m, words).Keys - m.Keys, added + {w});
    }
  }

  /** A subset is no larger than its superset. */
  lemma SubsetCard(a: set<string>, b: set<string>)
    requires a <= b
    ensures |a| <= |b|
  {
    assert b == a + (b - a);
  }

  /**
   * With an odd number of words the last word is never given a value by its
   * own position: it is a key afterwards only if it was one before or also
   * stands at an earlier key index.
   */
  lemma TrailingWordIgnored(m: map<string, string>, words: seq<string>)
    requires |words| % 2 == 1
    ensures var last := words[|words| - 1];
            last in Loaded(m, words) ==>
              last in m || exists j :: IsKeyIndex(words, j) && words[j] == last
  {
    LoadedLookup(m, words, words[|words| - 1]);
  }

  /** The configuration "alpha file1.dca beta file2.dca" loads to exactly two entries. */
  lemma EvenExample()
    ensures Loaded(map[], ["alpha", "file1.dca", "beta", "file2.dca"])
            == map["alpha" := "file1.dca", "beta" := "file2.dca"]
  {
  }

  /** In "alpha file1.dca beta" the unmatched "beta" gets no entry. */
  lemma OddExample()
    ensures Loaded(map[], ["alpha", "file1.dca", "beta"]) == map["alpha" := "file1.dca"]
  {
  }

  /** The process-wide keyword table `audioMap`. */
  class AudioTable {
    var audioMap: map<string, string>

    /** The table starts empty. */
    constructor ()
      ensures audioMap == map[]
    {
      audioMap := map[];
    }

    /**
     * `readAudioConfig`: `words` is `None` when the file cannot be opened,
     * and the table is then left as it was; otherwise every complete pair is
     * stored, in order.
     */
    method ReadAudioConfig(words: Option<seq<string>>)
      modifies this
      ensures words.None? ==> audioMap == old(audioMap)
      ensures words.Some? ==> audioMap == Loaded(old(audioMap), words.value)
      ensures words.Some? && |words.value| <= 1 ==> audioMap == old(audioMap)
    {
      if words.None? {
        return;
      }
      var ws := words.value;
      var i := 0;
      while i < |ws| - 1
        invariant 0 <= i <= |ws| && i % 2 == 0
        invariant audioMap == Loaded(old(audioMap), ws[..i])
      {
        assert ws[..i + 2][..i] == ws[..i];
        audioMap := audioMap[ws[i] := ws[i + 1]];
        i := i + 2;
      }
      if i < |ws| {
        assert ws[..i + 1][..i] == ws[..i];
      } else {
        assert ws[..i] == ws;
      }
    }
  }
}
