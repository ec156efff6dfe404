/**
 * The Vietnamese dictionary: a list of entries (the lines of a dictionary
 * file) and an index from lowered token to the positions of the entries
 * holding it; BuildListAndIndex fills both in one pass over the file's
 * text, FindAll answers a keyword with the matching entries.
 *
 * Reading the file is not modelled: its outcome is an input. The
 * library's lowercasing is the parameter `lower`.
 */
module RhythmEngine {
  import opened Segmenting
  import opened Positions
  import opened InvertedIndex

  datatype Option<T> = None | Some(value: T)

  /** Why the dictionary file could not be read. */
  datatype Error = ReadError(reason: string)

  /** The outcome of reading the dictionary file. */
  datatype ReadResult = Contents(text: string) | Failed(error: Error)

  /** The entries at positions `ps`, in the order of `ps`. */
  function Project(words: seq<string>, ps: seq<int>): seq<string>
    requires InRange(ps, |words|)
    decreases |ps|
  {
    if ps == [] then []
    else
      var n := |ps| - 1;
      Project(words, ps[..n]) + [words[ps[n]]]
  }

  lemma ProjectStep(words: seq<string>, ps: seq<int>, i: nat)
    requires InRange(ps, |words|) && i < |ps|
    ensures InRange(ps[..i], |words|) && InRange(ps[..i + 1], |words|)
    ensures Project(words, ps[..i + 1]) == Project(words, ps[..i]) + [words[ps[i]]]
  {
    assert forall j :: 0 <= j < i + 1 ==> ps[..i + 1][j] == ps[j];
    assert ps[..i + 1][..i] == ps[..i];
  }

  /**
   * What a lookup of `keyword` answers from `index` and `words`: nothing
   * for a missing keyword, otherwise the entries at the distinct positions
   * listed under it, in ascending order of position.
   */
  function Resolve(index: Index, words: seq<string>, keyword: string): seq<string>
    requires keyword in index ==> InRange(index[keyword], |words|)
  {
    if keyword !in index then []
    else
      var ps := Distinct(index[keyword]);
      assert forall i :: 0 <= i < |ps| ==> ps[i] in index[keyword];
      Project(words, ps)
  }

  /** Every list in `index` holds only positions of `words`. */
  predicate Bounded(index: Index, words: seq<string>)
  {
    forall t :: t in index ==> InRange(index[t], |words|)
  }

  /**
   * Sorting the list under `keyword` in place keeps every position valid
   * and leaves the answer to a lookup of `keyword` as it was, so a second
   * lookup repeats the first; that answer is read off the sorted list by
   * removing adjacent duplicates.
   */
  lemma ResolveAfterSort(index: Index, words: seq<string>, keyword: string)
    requires keyword in index && Bounded(index, words)
    ensures Bounded(index[keyword := SortedOf(index[keyword])], words)
    ensures InRange(Dedup(SortedOf(index[keyword]), -1), |words|)
    ensures Resolve(index[keyword := SortedOf(index[keyword])], words, keyword) == Resolve(index, words, keyword)
    ensures Resolve(index, words, keyword) == Project(words, Dedup(SortedOf(index[keyword]), -1))
  {
    var list := index[keyword];
    SortedInRange(list, |words|);
    DistinctInRange(list, |words|);
    SortedOfSorted(SortedOf(list));
  }

  /**
   * On a freshly built dictionary, the lookup of `t` answers the entries
   * with a token lowering to `t`, each once, in file order (which entries
   * those are is stated by MatchingMembers).
   */
  lemma {:induction false} LookupBuilt(entries: seq<string>, lower: string -> string, t: string)
    ensures t in IndexOf(entries, lower) ==> InRange(IndexOf(entries, lower)[t], |entries|)
    ensures InRange(Matching(entries, t, lower), |entries|)
    ensures Resolve(IndexOf(entries, lower), entries, t) == Project(entries, Matching(entries, t, lower))
  {
    var p := Postings(entries, t, lower);
    IndexOfGet(entries, lower, t);
    PostingsBounds(entries, t, lower);
    DedupPostings(entries, t, lower);
    MatchingIncreasing(entries, t, lower);
    if t in IndexOf(entries, lower) {
      SortedOfSorted(p);
    }
  }

  class VnDictionary {
    /** The entries, in file order. */
    var WordList: seq<string>
    /** Lowered token to the positions in WordList of the entries holding it. */
    var Indexing: Index

    /** Every position in the index is a position of WordList. */
    predicate Valid()
      reads this
    {
      Bounded(Indexing, WordList)
    }

    constructor ()
      ensures WordList == [] && Indexing == map[]
    {
      WordList := [];
      Indexing := map[];
    }

    /**
     * The entries holding `keyword` as a token, each once, in file order.
     * Sorts the list under `keyword` in place on the way, which leaves
     * the answer to a later lookup unchanged.
     */
    method FindAll(keyword: string) returns (results: seq<string>)
      requires Valid()
      modifies this
      ensures Valid() && WordList == old(WordList)
      ensures keyword !in old(Indexing) ==> results == [] && Indexing == old(Indexing)
      ensures keyword in old(Indexing) ==>
                Indexing == old(Indexing)[keyword := SortedOf(old(Indexing)[keyword])]
      ensures results == Resolve(old(Indexing), WordList, keyword)
      ensures results == Resolve(Indexing, WordList, keyword)
    {
      var words := WordList;
      ghost var index := Indexing;
      var entriesList: seq<int> := [];
      if keyword in Indexing {
        var list := Indexing[keyword];
        var buf := new int[|list|](i requires 0 <= i < |list| => list[i]);
        assert buf[..] == list;
        SortInts(buf);
        var sorted := buf[..];
        Indexing := Indexing[keyword := sorted];
        entriesList := DuplicatesEliminate(sorted);
        ResolveAfterSort(index, words, keyword);
      }
      ghost var sortedIndex := Indexing;
      results := [];
      for i := 0 to |entriesList|
        invariant WordList == words && Indexing == sortedIndex
        invariant InRange(entriesList, |words|)
        invariant InRange(entriesList[..i], |words|) && results == Project(words, entriesList[..i])
      {
        ProjectStep(words, entriesList, i);
        results := results + [words[entriesList[i]]];
      }
      assert entriesList[..|entriesList|] == entriesList;
    }
  }

  /**
   * buildListAndIndex: on a read failure, an empty dictionary and the
   * error; otherwise the dictionary of the text's '\n'-terminated lines,
   * each indexed under its lowered ' '-terminated tokens.
   */
  method BuildListAndIndex(file: ReadResult, lower: string -> string)
    returns (vnDict: VnDictionary, err: Option<Error>)
    ensures fresh(vnDict) && vnDict.Valid()
    ensures file.Failed? ==>
              err == Some(file.error) && vnDict.WordList == [] && vnDict.Indexing == map[]
    ensures file.Contents? ==>
              err == None &&
              vnDict.WordList == Entries(file.text) &&
              vnDict.Indexing == IndexOf(vnDict.WordList, lower)
  {
    vnDict := new VnDictionary();
    if file.Failed? {
      err := Some(file.error);
      return;
    }
    err := None;
    var content := file.text;
    var cutOff, entryIndex := 0, 0;
    ghost var words: seq<string> := [];
    for i := 0 to |content|
      invariant cutOff <= i
      invariant content[cutOff..i] == Leftover(content[..i], '\n')
      invariant words == Entries(content[..i])
      invariant entryIndex == |words|
      invariant vnDict.WordList == words
      invariant vnDict.Indexing == IndexOf(words, lower)
    {
      ScanStep(content, cutOff, i, words, vnDict.Indexing, lower);
      if content[i] == '\n' {
        var entry := content[cutOff..i];
        vnDict.WordList := vnDict.WordList + [entry];
        IndexEntry(vnDict, entry, entryIndex, lower);
        words := words + [entry];
        entryIndex := entryIndex + 1;
        cutOff := i + 1;
      }
    }
    assert content[..|content|] == content;
    assert vnDict.Valid() by {
      IndexWellFormed(vnDict.WordList, lower);
    }
  }

  /**
   * The token loop of buildListAndIndex: appends `entryIndex` under the
   * lowered form of each ' '-terminated token of `entry`, first to last.
   */
  method IndexEntry(vnDict: VnDictionary, entry: string, entryIndex: int, lower: string -> string)
    modifies vnDict`Indexing
    ensures vnDict.Indexing == AddTokens(old(vnDict.Indexing), Tokens(entry), entryIndex, lower)
  {
    ghost var start, index := vnDict.Indexing, vnDict.Indexing;
    var wordCutOff := 0;
    for j := 0 to |entry|
      invariant wordCutOff <= j
      invariant entry[wordCutOff..j] == Leftover(entry[..j], ' ')
      invariant index == AddTokens(start, Tokens(entry[..j]), entryIndex, lower)
      invariant vnDict.Indexing == index
    {
      if entry[j] == ' ' {
        var singleWord := lower(entry[wordCutOff..j]);
        vnDict.Indexing := vnDict.Indexing[singleWord := Get(vnDict.Indexing, singleWord) + [entryIndex]];
        index := AddPosting(index, singleWord, entryIndex);
        assert index == AddTokens(start, Tokens(entry[..j + 1]), entryIndex, lower) &&
               entry[j + 1..j + 1] == Leftover(entry[..j + 1], ' ') by {
          CutAt(entry, wordCutOff, j, ' ');
          AddTokensSnoc(start, Tokens(entry[..j]), entry[wordCutOff..j], entryIndex, lower);
        }
        wordCutOff := j + 1;
      } else {
        assert Tokens(entry[..j + 1]) == Tokens(entry[..j]) &&
               entry[wordCutOff..j + 1] == Leftover(entry[..j + 1], ' ') by {
          CutAt(entry, wordCutOff, j, ' ');
        }
      }
    }
    assert entry[..|entry|] == entry;
  }

  /**
   * One character of the entry scan, in terms of the dictionary built so
   * far: `words` and `index` are the entries and the index of `content[..i]`.
   */
  lemma ScanStep(content: string, cut: nat, i: nat, words: seq<string>, index: Index, lower: string -> string)
    requires cut <= i < |content|
    requires content[cut..i] == Leftover(content[..i], '\n')
    requires words == Entries(content[..i]) && index == IndexOf(words, lower)
    ensures content[i] == '\n' ==>
              words + [content[cut..i]] == Entries(content[..i + 1]) &&
              AddTokens(index, Tokens(content[cut..i]), |words|, lower) == IndexOf(words + [content[cut..i]], lower) &&
              content[i + 1..i + 1] == Leftover(content[..i + 1], '\n')
    ensures content[i] != '\n' ==>
              words == Entries(content[..i + 1]) &&
              content[cut..i + 1] == Leftover(content[..i + 1], '\n')
  {
    CutAt(content, cut, i, '\n');
    if content[i] == '\n' {
      IndexOfSnoc(words, content[cut..i], lower);
    }
  }
}
