/**
 * Splits a command's argument string into a preamble and the values that follow the
 * recognised prefixes "n/" (person name) and "c/" (class name).
 *
 * A prefix is recognised where its two characters stand at the very start of the
 * argument string or right after a space. Its value runs up to the next recognised
 * prefix or the end of the string and is trimmed; the preamble is the trimmed text
 * before the first recognised prefix. Every occurrence is kept, in order.
 */
module ArgumentTokenizer {
  import opened Wrappers
  import opened Text

  datatype Prefix = Name | ClassName

  function Marker(p: Prefix): char {
    match p
    case Name => 'n'
    case ClassName => 'c'
  }

  predicate IsMarker(c: char) {
    c == 'n' || c == 'c'
  }

  function PrefixOf(c: char): (p: Prefix)
    requires IsMarker(c)
    ensures Marker(p) == c
  {
    if c == 'n' then Name else ClassName
  }

  /** A recognised prefix starts at index i of s. */
  predicate PrefixAt(s: string, i: int) {
    0 <= i && i + 1 < |s| && IsMarker(s[i]) && s[i + 1] == '/' && (i == 0 || s[i - 1] == ' ')
  }

  /** No prefix is recognised at any index in [lo, hi). */
  predicate NoPrefixIn(s: string, lo: int, hi: int) {
    forall j :: lo <= j < hi ==> !PrefixAt(s, j)
  }

  /** The first recognised prefix at or after `from`, or |s| when there is none. */
  function NextPrefix(s: string, from: nat): (r: nat)
    requires from <= |s|
    ensures from <= r <= |s|
    ensures r < |s| ==> PrefixAt(s, r)
    ensures NoPrefixIn(s, from, r)
    decreases |s| - from
  {
    if from == |s| || PrefixAt(s, from) then from else NextPrefix(s, from + 1)
  }

  /** NextPrefix is pinned down by where the prefixes are. */
  lemma NextPrefixIs(s: string, from: nat, r: nat)
    requires from <= r <= |s|
    requires r < |s| ==> PrefixAt(s, r)
    requires NoPrefixIn(s, from, r)
    ensures NextPrefix(s, from) == r
  {
  }

  datatype Entry = Entry(prefix: Prefix, value: string)

  datatype ArgMultimap = ArgMultimap(preamble: string, entries: seq<Entry>)

  /** The entries of the prefixes from index i on, i being a prefix position or |s|. */
  function Entries(s: string, i: nat): (r: seq<Entry>)
    requires i == |s| || PrefixAt(s, i)
    ensures forall e :: e in r ==> IsTrimmed(e.value)
    decreases |s| - i
  {
    if i == |s| then []
    else
      var j := NextPrefix(s, i + 2);
      [Entry(PrefixOf(s[i]), Trim(s[i + 2..j]))] + Entries(s, j)
  }

  function Tokenize(s: string): (r: ArgMultimap)
    ensures IsTrimmed(r.preamble)
    ensures forall e :: e in r.entries ==> IsTrimmed(e.value)
  {
    var first := NextPrefix(s, 0);
    ArgMultimap(Trim(s[..first]), Entries(s, first))
  }

  /** Every value given for prefix p, in the order they appear. */
  function AllValues(entries: seq<Entry>, p: Prefix): (r: seq<string>)
    ensures |r| <= |entries|
    ensures forall v :: v in r ==> Entry(p, v) in entries
  {
    if entries == [] then []
    else (if entries[0].prefix == p then [entries[0].value] else []) + AllValues(entries[1..], p)
  }

  /** The value for p: the last one given, or None when p never appears. */
  function GetValue(m: ArgMultimap, p: Prefix): (r: Option<string>)
    ensures r.Some? ==> r.value in AllValues(m.entries, p)
    ensures r.None? <==> AllValues(m.entries, p) == []
  {
    var vs := AllValues(m.entries, p);
    if vs == [] then None else Some(vs[|vs| - 1])
  }

  lemma AllValuesCons(e: Entry, es: seq<Entry>, p: Prefix)
    ensures AllValues([e] + es, p) == (if e.prefix == p then [e.value] else []) + AllValues(es, p)
  {
    assert ([e] + es)[1..] == es;
  }

  /** The arguments hold exactly one "n/" prefix, at p0, followed by exactly one "c/"
      prefix, at p1: the tokenizer yields the text before p0 and the two values. */
  lemma TokenizeNameThenClass(s: string, p0: nat, p1: nat)
    requires PrefixAt(s, p0) && s[p0] == 'n' && PrefixAt(s, p1) && s[p1] == 'c'
    requires p0 + 2 <= p1
    requires NoPrefixIn(s, 0, p0) && NoPrefixIn(s, p0 + 2, p1) && NoPrefixIn(s, p1 + 2, |s|)
    ensures Tokenize(s) ==
            ArgMultimap(Trim(s[..p0]), [Entry(Name, Trim(s[p0 + 2..p1])), Entry(ClassName, Trim(s[p1 + 2..]))])
  {
    NextPrefixIs(s, 0, p0);
    LastEntry(s, p1);
    EntriesStep(s, p0, p1);
  }

  /** The value of the prefix at i runs up to the next prefix, at j. */
  lemma EntriesStep(s: string, i: nat, j: nat)
    requires PrefixAt(s, i) && i + 2 <= j <= |s|
    requires j < |s| ==> PrefixAt(s, j)
    requires NoPrefixIn(s, i + 2, j)
    ensures Entries(s, i) == [Entry(PrefixOf(s[i]), Trim(s[i + 2..j]))] + Entries(s, j)
  {
    NextPrefixIs(s, i + 2, j);
  }

  /** The last recognised prefix, at i, takes the rest of the string as its value. */
  lemma LastEntry(s: string, i: nat)
    requires PrefixAt(s, i)
    requires NoPrefixIn(s, i + 2, |s|)
    ensures Entries(s, i) == [Entry(PrefixOf(s[i]), Trim(s[i + 2..]))]
  {
    NextPrefixIs(s, i + 2, |s|);
    assert Entries(s, |s|) == [];
    assert s[i + 2..|s|] == s[i + 2..];
  }

  /** Prefix p is recognised somewhere at or after index `from`. */
  predicate RecognisedFrom(s: string, p: Prefix, from: int) {
    exists k :: from <= k < |s| && PrefixAt(s, k) && s[k] == Marker(p)
  }

  lemma RecognisedSkip(s: string, p: Prefix, i: nat, j: nat)
    requires PrefixAt(s, i) && s[i] != Marker(p)
    requires i + 2 <= j <= |s|
    requires NoPrefixIn(s, i + 2, j)
    ensures RecognisedFrom(s, p, i) <==> RecognisedFrom(s, p, j)
  {
    if RecognisedFrom(s, p, i) {
      var k :| i <= k < |s| && PrefixAt(s, k) && s[k] == Marker(p);
      assert k != i && k != i + 1;
    }
  }

  /** From prefix position i on, prefix p receives a value exactly when it is recognised
      somewhere at or after i. */
  lemma {:induction false} EntriesHaveValueIff(s: string, i: nat, p: Prefix)
    requires i == |s| || PrefixAt(s, i)
    ensures AllValues(Entries(s, i), p) != [] <==> RecognisedFrom(s, p, i)
    decreases |s| - i
  {
    if i < |s| {
      var j := NextPrefix(s, i + 2);
      var e := Entry(PrefixOf(s[i]), Trim(s[i + 2..j]));
      var es := Entries(s, j);
      assert Entries(s, i) == [e] + es;
      AllValuesCons(e, es, p);
      EntriesHaveValueIff(s, j, p);
      if s[i] != Marker(p) {
        RecognisedSkip(s, p, i, j);
      } else {
        assert RecognisedFrom(s, p, i);
      }
    }
  }

  /** A prefix has a value in the tokenized arguments exactly when it is recognised
      somewhere in the string. */
  lemma HasValueIff(s: string, p: Prefix)
    ensures GetValue(Tokenize(s), p).Some? <==> RecognisedFrom(s, p, 0)
  {
    var first := NextPrefix(s, 0);
    EntriesHaveValueIff(s, first, p);
    if RecognisedFrom(s, p, 0) {
      var k :| 0 <= k < |s| && PrefixAt(s, k) && s[k] == Marker(p);
      assert first <= k;
    }
  }
}
