# VneseRhythm: the dictionary index and its lookup

VneseRhythm finds Vietnamese words that rhyme with a keyword. It does
this with an inverted index over a dictionary file. The file has one
entry per line. `buildListAndIndex` reads the file once, left to right:

- every `'\n'` closes an entry, which is appended to `WordList` at the
  position `entryIndex`;
- inside each entry, every `' '` closes a token; the token is lowercased
  and the entry's position is appended to `Indexing[token]`.

`FindAll(keyword)` sorts the position list stored under the keyword in
place, removes adjacent duplicates (`duplicatesEliminate`), and returns
the entries at the surviving positions.

The model keeps the program's imperative form:

- `RhythmEngine.VnDictionary` is a class with the two fields `WordList`
  (`seq<string>`) and `Indexing` (`map<string, seq<int>>`).
- `BuildListAndIndex` and `IndexEntry` are the two nested scanning loops.
- `FindAll` copies the list under the keyword into an array, sorts it in
  place, and writes it back into the map, as the Go slice is shared with
  the map. It then removes duplicates and projects the positions in a loop.
- `Positions.DuplicatesEliminate` is the dedup loop.

Each method is proved against a specification function:

- `Segmenting.Cut`, `Segments` and `Leftover` describe the left-to-right
  cut at a one-character delimiter.
- `InvertedIndex.Entries`, `Tokens` and `IndexOf` describe the built
  dictionary.
- `InvertedIndex.Postings` and `Matching` are an independent, key-by-key
  reference definition of the index and of a lookup.
- `Positions.SortedOf` and `Dedup` describe sorting and the removal of
  adjacent duplicates.
- `RhythmEngine.Resolve` is the answer of a lookup: the entries, taken by
  `RhythmEngine.Project`, at the positions `Positions.Distinct` keeps
  from the list under the keyword. `FindAll`'s result is stated through it.

Lemmas connect each pair. `DistinctSpec` gives `Resolve` its meaning on
any index (each stored position once, strictly increasing). `LookupBuilt`
gives it on a freshly built index: the entries with a matching token,
each once, in file order.

Two boundary behaviours of the program are reproduced exactly and proved
on concrete inputs:

- text after the last `'\n'` is not an entry (`LastLineDropped`);
- text after the last `' '` of an entry is not a token (`LastWordDropped`),
  so an entry without a trailing space does not index its last word.

Consecutive spaces index the empty token (`DoubleSpaceToken`).

Module layout: `Segmenting`, `Positions`, `InvertedIndex`, `RhythmEngine`. The program has two copies of
`buildListAndIndex`: RhythmEngine.go and readFile.go. They are
identical line for line (RhythmEngine.go:76-119 and readFile.go:31-74),
so they are modelled once; the table cites whichever copy shows a
property best.

## Model

| member | source | states |
|---|---|---|
| RhythmEngine.BuildListAndIndex | RhythmEngine.go:76-119 | On a read failure: an empty dictionary (no entries, empty index) and that same error. Otherwise no error, `WordList` is the `'\n'`-terminated lines of the text in order, `Indexing` is the index of those entries, and every stored position is a valid `WordList` position (`Valid`). |
| RhythmEngine.IndexEntry | RhythmEngine.go:100-111 | The token loop changes only `Indexing`. It appends the entry's position under the lowered form of each `' '`-terminated token of the entry, first to last. |
| RhythmEngine.VnDictionary.FindAll | RhythmEngine.go:25-39 | An absent key gives `[]` and leaves the index unchanged. A present key's list is replaced by its sorted arrangement (same multiset), and `WordList` is unchanged. The result is the entries at the distinct positions under the key, in ascending order. The sorted index gives the same answer, so a second call repeats the first. |
| RhythmEngine.VnDictionary.constructor | RhythmEngine.go:82-83 | A new dictionary has no entries and an empty, non-nil index. |
| RhythmEngine.ResolveAfterSort | RhythmEngine.go:29-31 | Sorting the list under the key in place keeps every position valid and does not change the lookup's answer, so a second lookup gives the same answer. Its last clause only unfolds `Distinct`: it rewrites the answer as the entries at the positions left when adjacent duplicates are removed from the sorted list, the form `FindAll` computes. |
| RhythmEngine.LookupBuilt | RhythmEngine.go:25-39 | On a freshly built dictionary, a lookup of `t` answers the entries that have a token lowering to `t`, each once, in file order. |
| Positions.DuplicatesEliminate | RhythmEngine.go:41-51 | The result keeps each element that differs from the one kept before it, starting from -1. It is never longer than the input. On a sorted list of non-negative values it is strictly increasing and has the same members as the input. |
| Positions.SortInts | RhythmEngine.go:30 | Sorts the array in place into ascending order as a permutation of its old contents. The result is exactly the sorted arrangement `SortedOf` of the old contents. |
| Positions.SiftDown | RhythmEngine.go:30 | One insertion step of the sort: extends the sorted prefix by one element, leaves every element after it as it was, and keeps the multiset of the array. |
| Positions.Swap | RhythmEngine.go:30 | Exchanges two elements and leaves every other element and the multiset unchanged. |
| Positions.SortedOf | RhythmEngine.go:30 | The sorted arrangement of a list is ascending and a permutation of it. |
| Positions.Insert | RhythmEngine.go:30 | Inserting into a sorted list keeps it sorted and adds exactly one copy of the value. |
| Positions.SortedUnique | RhythmEngine.go:30 | Two ascending lists with the same multiset are equal, so the sort's result is determined by its input. |
| Positions.SortedOfSorted | RhythmEngine.go:30 | Sorting an ascending list changes nothing, so sorting the stored list a second time is a no-op. |
| Positions.Dedup | RhythmEngine.go:41-51 | Removing adjacent duplicates never lengthens a list. No two neighbours in the result are equal. The first element differs from the one before it. Every element comes from the input. |
| Positions.DedupOfSorted | RhythmEngine.go:41-51 | On an ascending list with nothing below the starting value, the result is strictly increasing. It holds each input value other than the starting value, and only those. |
| Positions.DedupAppend | RhythmEngine.go:41-51 | Removing adjacent duplicates from a concatenation is the same as removing them from each part, carrying over the last value kept. |
| Positions.DedupRepeat | RhythmEngine.go:41-51 | A run of copies of one value collapses to a single copy, or to nothing when it follows that same value. |
| Positions.Distinct | RhythmEngine.go:30-31 | Sorting then removing duplicates only yields elements of the input. |
| Positions.DistinctSpec | RhythmEngine.go:30-31 | On non-negative positions, sorting then removing duplicates lists every element of the input exactly once, in strictly increasing order. |
| Positions.SortedInRange | RhythmEngine.go:30 | Sorting keeps every position within range. |
| Positions.DistinctInRange | RhythmEngine.go:30-31 | Sorting then removing duplicates keeps every position within range. |
| Segmenting.SegmentsCount | RhythmEngine.go:92-97 | There are exactly as many captured segments as delimiter characters, so the number of entries equals the number of `'\n'` in the text. |
| Segmenting.SegmentsFree | RhythmEngine.go:94-95 | No captured segment holds the delimiter, so no entry holds `'\n'` and no token holds `' '`. Neither does the uncaptured rest after the last delimiter. |
| Segmenting.SegmentsJoin | readFile.go:47-71 | Each segment followed by its delimiter, and then the uncaptured rest, rebuild the text exactly. So entry k is the text between the (k-1)-th and the k-th newline, and only the text after the last newline is dropped. |
| Segmenting.CutFree | RhythmEngine.go:92-94 | Text without the delimiter closes no segment and only extends the pending text. |
| Segmenting.SegmentsOfJoin | RhythmEngine.go:94-95 | Cutting the delimiter-terminated concatenation of delimiter-free pieces gives back those pieces and leaves nothing pending. With `SegmentsJoin`, this makes the cut the inverse of joining. |
| InvertedIndex.AddTokensGet | RhythmEngine.go:101-110 | Indexing one entry's tokens appends its position under `t` once per token lowering to `t`, after what was already there. `t` becomes a key exactly when it was one already or such a token exists. |
| InvertedIndex.IndexOfGet | RhythmEngine.go:92-116 | Under every token, the built index holds exactly the reference list of positions: each entry position, in file order, repeated once per matching token. A token is a key exactly when that list is non-empty. |
| InvertedIndex.PostingsBounds | RhythmEngine.go:101-113 | The reference lists are ascending and hold only valid entry positions. |
| InvertedIndex.PostingsCount | RhythmEngine.go:101-110 | Position k occurs in the reference list for `t` once per token of entry k that lowers to `t`. |
| InvertedIndex.DedupPostings | RhythmEngine.go:41-51 | Removing adjacent duplicates from the reference list gives the positions of the entries that have a token lowering to `t`. |
| InvertedIndex.MatchingIncreasing | RhythmEngine.go:34-37 | The matching positions are strictly increasing valid entry positions, so a lookup lists no entry twice. |
| InvertedIndex.MatchingMembers | RhythmEngine.go:100-110 | A position matches `t` exactly when it is a valid entry position and that entry has a token lowering to `t`. |
| InvertedIndex.IndexWellFormed | RhythmEngine.go:97-113 | Every list in the built index is non-empty and ascending (repeats allowed), and holds only valid `WordList` positions. |
| InvertedIndex.IndexCounts | readFile.go:55-65 | In the built index, entry k's position appears under `t` once per `' '`-terminated token of entry k that lowers to `t`. `t` is a key exactly when some entry has such a token. |
| InvertedIndex.LastLineDropped | RhythmEngine.go:94-95 | A final line with no `'\n'` after it is not an entry: the text `"ab\nc"` has the single entry `"ab"`. |
| InvertedIndex.LastWordDropped | RhythmEngine.go:103-105 | A final word with no `' '` after it is not a token: the entry `"a b"` has the single token `"a"`. |
| InvertedIndex.DoubleSpaceToken | RhythmEngine.go:103-109 | Two spaces in a row close an empty token: the entry `"a  "` has the tokens `"a"` and `""`. |

## Left out

- Reading the file (`ioutil.ReadFile`, RhythmEngine.go:80, readFile.go:35): the outcome of the read is the input `ReadResult`, either the file's contents or an `Error`. The error is modelled as the `Option<Error>` result.
- `writeFile` and its `%v` dump of the map (RhythmEngine.go:70-74, readFile.go:25-29): file output and Go's map formatting.
- Both `main` functions (RhythmEngine.go:54-68, readFile.go:20-23): hard-coded paths and query, and printing.
- `strings.ToLower`: the parameter `lower`. No property depends on what it does, so the Unicode case tables are not modelled.
- `sort.Ints`: `Positions.SortInts` is an insertion sort that stands for it. Only the result (ascending, a permutation of the input) is relied on, not the library's algorithm.
- The `Size` field (RhythmEngine.go:14, readFile.go:13): it is never assigned and has no behaviour.
- Bytes: the text is a `seq<char>` with one `char` per byte. `'\n'` and `' '` never occur inside a multi-byte UTF-8 sequence, so cutting bytes and cutting characters agree.
- RhythmEngine.VnDictionary.FindAll: it requires `Valid()`, that every stored position is a valid `WordList` position. Go would panic on an out-of-range position. `BuildListAndIndex` establishes `Valid()`, and `FindAll` preserves it.
- RhythmEngine.IndexEntry: the token loop is a method of its own, called once per entry. In Go it is inlined in the entry loop.
- Aliasing: the slice under a key is modelled as a sequence value. The sorted array is written back into the map. No other holder of that slice exists in the program.
