/**
 * What the index builder computes, stated as functions of the text: the
 * entry list (one entry per '\n'-terminated line), the tokens of an entry
 * (its ' '-terminated segments) and the index from lowered token to the
 * positions of the entries it occurs in, one position per occurrence.
 *
 * `lower` stands for the library's lowercasing; nothing here depends on
 * what it does.
 */
module InvertedIndex {
  import opened Segmenting
  import opened Positions

  /** Token to entry positions; a position appears once per occurrence. */
  type Index = map<string, seq<int>>

  /** The entries of a dictionary text: its '\n'-terminated lines. */
  function Entries(text: string): seq<string>
  {
    Segments(text, '\n')
  }

  /** The indexed tokens of an entry: its ' '-terminated segments. */
  function Tokens(entry: string): seq<string>
  {
    Segments(entry, ' ')
  }

  /** Reading a key the way a missing map key reads: as an empty list. */
  function Get(m: Index, key: string): seq<int>
  {
    if key in m then m[key] else []
  }

  /** Appends `pos` to the list under `key`. */
  function AddPosting(m: Index, key: string, pos: int): Index
  {
    m[key := Get(m, key) + [pos]]
  }

  /** Indexes the tokens `toks` of the entry at `pos`, first to last. */
  function AddTokens(m: Index, toks: seq<string>, pos: int, lower: string -> string): Index
    decreases |toks|
  {
    if toks == [] then m
    else
      var n := |toks| - 1;
      AddPosting(AddTokens(m, toks[..n], pos, lower), lower(toks[n]), pos)
  }

  /** The index of the entries `entries`, built entry by entry. */
  function IndexOf(entries: seq<string>, lower: string -> string): Index
    decreases |entries|
  {
    if entries == [] then map[]
    else
      var n := |entries| - 1;
      AddTokens(IndexOf(entries[..n], lower), Tokens(entries[n]), n, lower)
  }

  /** Indexing one more entry. */
  lemma IndexOfSnoc(entries: seq<string>, entry: string, lower: string -> string)
    ensures IndexOf(entries + [entry], lower) == AddTokens(IndexOf(entries, lower), Tokens(entry), |entries|, lower)
  {
    assert (entries + [entry])[..|entries|] == entries;
  }

  /** Indexing one more token. */
  lemma AddTokensSnoc(m: Index, toks: seq<string>, t: string, pos: int, lower: string -> string)
    ensures AddTokens(m, toks + [t], pos, lower) == AddPosting(AddTokens(m, toks, pos, lower), lower(t), pos)
  {
    assert (toks + [t])[..|toks|] == toks;
  }

  // ---------------------------------------------------------------------
  // A reference definition, key by key
  // ---------------------------------------------------------------------

  /** How many of the tokens `toks` lower to `t`. */
  function Occurrences(toks: seq<string>, t: string, lower: string -> string): nat
    decreases |toks|
  {
    if toks == [] then 0
    else
      var n := |toks| - 1;
      Occurrences(toks[..n], t, lower) + (if lower(toks[n]) == t then 1 else 0)
  }

  /** Each position `k`, in order, as often as entry `k` has a token lowering to `t`. */
  function Postings(entries: seq<string>, t: string, lower: string -> string): seq<int>
    decreases |entries|
  {
    if entries == [] then []
    else
      var n := |entries| - 1;
      Postings(entries[..n], t, lower) + Repeat(n, Occurrences(Tokens(entries[n]), t, lower))
  }

  /** The positions of the entries with a token lowering to `t`, each once, in order. */
  function Matching(entries: seq<string>, t: string, lower: string -> string): seq<int>
    decreases |entries|
  {
    if entries == [] then []
    else
      var n := |entries| - 1;
      Matching(entries[..n], t, lower) + (if Occurrences(Tokens(entries[n]), t, lower) > 0 then [n] else [])
  }

  // ---------------------------------------------------------------------
  // The map-based index agrees with the reference definition
  // ---------------------------------------------------------------------

  /** Indexing the tokens of one entry appends its position once per matching token. */
  lemma {:induction false} AddTokensGet(m: Index, toks: seq<string>, pos: int, lower: string -> string, t: string)
    ensures Get(AddTokens(m, toks, pos, lower), t) == Get(m, t) + Repeat(pos, Occurrences(toks, t, lower))
    ensures t in AddTokens(m, toks, pos, lower) <==> t in m || Occurrences(toks, t, lower) > 0
    decreases |toks|
  {
    if toks == [] {
      assert Repeat(pos, 0) == [];
    } else {
      var n := |toks| - 1;
      AddTokensGet(m, toks[..n], pos, lower, t);
      var c := Occurrences(toks[..n], t, lower);
      if lower(toks[n]) == t {
        assert Repeat(pos, c) + [pos] == Repeat(pos, c + 1);
      }
    }
  }

  /** Under every token, the index holds exactly the reference list of positions. */
  lemma {:induction false} IndexOfGet(entries: seq<string>, lower: string -> string, t: string)
    ensures Get(IndexOf(entries, lower), t) == Postings(entries, t, lower)
    ensures t in IndexOf(entries, lower) <==> Postings(entries, t, lower) != []
    decreases |entries|
  {
    if entries != [] {
      var n := |entries| - 1;
      IndexOfGet(entries[..n], lower, t);
      AddTokensGet(IndexOf(entries[..n], lower), Tokens(entries[n]), n, lower, t);
    }
  }

  /** The reference lists are ascending and hold only positions of entries. */
  lemma {:induction false} PostingsBounds(entries: seq<string>, t: string, lower: string -> string)
    ensures InRange(Postings(entries, t, lower), |entries|)
    ensures Sorted(Postings(entries, t, lower))
    decreases |entries|
  {
    if entries != [] {
      var n := |entries| - 1;
      PostingsBounds(entries[..n], t, lower);
    }
  }

  /** Position `k` appears once per token of entry `k` that lowers to `t`. */
  lemma {:induction false} PostingsCount(entries: seq<string>, t: string, lower: string -> string, k: int)
    requires 0 <= k < |entries|
    ensures multiset(Postings(entries, t, lower))[k] == Occurrences(Tokens(entries[k]), t, lower)
    decreases |entries|
  {
    var n := |entries| - 1;
    var prefix := Postings(entries[..n], t, lower);
    RepeatCount(n, Occurrences(Tokens(entries[n]), t, lower), k);
    if k < n {
      PostingsCount(entries[..n], t, lower, k);
    } else {
      PostingsBounds(entries[..n], t, lower);
      assert k !in prefix;
    }
  }

  /** Removing adjacent duplicates from the reference list gives the matching entries. */
  lemma {:induction false} DedupPostings(entries: seq<string>, t: string, lower: string -> string)
    ensures Dedup(Postings(entries, t, lower), -1) == Matching(entries, t, lower)
    decreases |entries|
  {
    if entries != [] {
      var n := |entries| - 1;
      var prefix := Postings(entries[..n], t, lower);
      var c := Occurrences(Tokens(entries[n]), t, lower);
      DedupPostings(entries[..n], t, lower);
      DedupAppend(prefix, Repeat(n, c), -1);
      PostingsBounds(entries[..n], t, lower);
      assert LastOr(prefix, -1) < n;
      DedupRepeat(n, c, LastOr(prefix, -1));
    }
  }

  /** The matching positions are ascending, each the position of an entry. */
  lemma {:induction false} MatchingIncreasing(entries: seq<string>, t: string, lower: string -> string)
    ensures StrictlyIncreasing(Matching(entries, t, lower))
    ensures InRange(Matching(entries, t, lower), |entries|)
    decreases |entries|
  {
    if entries != [] {
      var n := |entries| - 1;
      var prefix := Matching(entries[..n], t, lower);
      MatchingIncreasing(entries[..n], t, lower);
      if Occurrences(Tokens(entries[n]), t, lower) > 0 {
        StrictlySnoc(prefix, n);
      } else {
        assert prefix + [] == prefix;
      }
    }
  }

  /** The matching positions are exactly those of the entries with a token lowering to `t`. */
  lemma {:induction false} MatchingMembers(entries: seq<string>, t: string, lower: string -> string)
    ensures forall k :: k in Matching(entries, t, lower) <==>
              0 <= k < |entries| && Occurrences(Tokens(entries[k]), t, lower) > 0
    decreases |entries|
  {
    if entries != [] {
      var n := |entries| - 1;
      var init := entries[..n];
      var prefix := Matching(init, t, lower);
      var last := if Occurrences(Tokens(entries[n]), t, lower) > 0 then [n] else [];
      MatchingMembers(init, t, lower);
      assert Matching(entries, t, lower) == prefix + last;
      forall k
        ensures k in Matching(entries, t, lower) <==>
                0 <= k < |entries| && Occurrences(Tokens(entries[k]), t, lower) > 0
      {
        assert k in prefix + last <==> k in prefix || k in last;
        if 0 <= k < n {
          assert init[k] == entries[k];
        }
      }
    }
  }

  /** A final line without '\n' is not an entry. */
  lemma LastLineDropped()
    ensures Entries("ab\nc") == ["ab"]
  {
    assert "ab\nc" == [] + ['a'] + ['b'] + ['\n'] + ['c'];
    CutSnoc([], 'a', '\n');
    CutSnoc([] + ['a'], 'b', '\n');
    CutSnoc([] + ['a'] + ['b'], '\n', '\n');
    CutSnoc([] + ['a'] + ['b'] + ['\n'], 'c', '\n');
    assert [] + ['a'] + ['b'] == "ab";
  }

  /** A final word without ' ' is not a token. */
  lemma LastWordDropped()
    ensures Tokens("a b") == ["a"]
  {
    assert "a b" == [] + ['a'] + [' '] + ['b'];
    CutSnoc([], 'a', ' ');
    CutSnoc([] + ['a'], ' ', ' ');
    CutSnoc([] + ['a'] + [' '], 'b', ' ');
    assert [] + ['a'] == "a";
  }

  /** Two spaces in a row close an empty token. */
  lemma DoubleSpaceToken()
    ensures Tokens("a  ") == ["a", ""]
  {
    assert "a  " == [] + ['a'] + [' '] + [' '];
    CutSnoc([], 'a', ' ');
    CutSnoc([] + ['a'], ' ', ' ');
    CutSnoc([] + ['a'] + [' '], ' ', ' ');
    assert [] + ['a'] == "a";
  }

  // ---------------------------------------------------------------------
  // Properties of the built index
  // ---------------------------------------------------------------------

  /**
   * Every list in the index is non-empty, ascending (with repeats), and
   * holds only valid positions of entries.
   */
  lemma IndexWellFormed(entries: seq<string>, lower: string -> string)
    ensures forall t :: t in IndexOf(entries, lower) ==>
              IndexOf(entries, lower)[t] != [] &&
              Sorted(IndexOf(entries, lower)[t]) &&
              InRange(IndexOf(entries, lower)[t], |entries|)
  {
    forall t | t in IndexOf(entries, lower)
      ensures IndexOf(entries, lower)[t] != []
      ensures Sorted(IndexOf(entries, lower)[t])
      ensures InRange(IndexOf(entries, lower)[t], |entries|)
    {
      IndexOfGet(entries, lower, t);
      PostingsBounds(entries, t, lower);
    }
  }

  /**
   * Entry `k`'s position is stored under `t` once for each ' '-terminated
   * token of entry `k` that lowers to `t`, and `t` is a key exactly when
   * some entry has such a token.
   */
  lemma IndexCounts(entries: seq<string>, lower: string -> string, t: string, k: int)
    requires 0 <= k < |entries|
    ensures multiset(Get(IndexOf(entries, lower), t))[k] == Occurrences(Tokens(entries[k]), t, lower)
    ensures t in IndexOf(entries, lower) <==>
              exists j :: 0 <= j < |entries| && Occurrences(Tokens(entries[j]), t, lower) > 0
  {
    IndexOfGet(entries, lower, t);
    PostingsCount(entries, t, lower, k);
    var p := Postings(entries, t, lower);
    if p != [] {
      PostingsBounds(entries, t, lower);
      PostingsCount(entries, t, lower, p[0]);
      assert p[0] in multiset(p);
    }
    forall j | 0 <= j < |entries| && Occurrences(Tokens(entries[j]), t, lower) > 0
      ensures p != []
    {
      PostingsCount(entries, t, lower, j);
    }
  }
}
