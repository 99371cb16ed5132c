/** The frequency model: the distinct characters of the input lines in the order
    they are first seen (getListOfCharacters) and, for a list of characters, how
    often each occurs across all lines (getListOfFrequencies). The input is the
    list of lines, each already ending in the line sentinel. */
module Frequency {
  import opened Seqs

  /** The characters of all lines, one line after another. */
  function Flatten(lines: seq<seq<char>>): seq<char> {
    if lines == [] then [] else Flatten(lines[..|lines| - 1]) + lines[|lines| - 1]
  }

  lemma FlattenSnoc(lines: seq<seq<char>>, li: nat)
    requires li < |lines|
    ensures Flatten(lines[..li + 1]) == Flatten(lines[..li]) + lines[li]
  {
    assert lines[..li + 1][..li] == lines[..li];
  }

  /** Reference definition of the distinct characters of s in order of first
      appearance: a character is added when it was not seen before. */
  function Distinct(s: seq<char>): seq<char> {
    if s == [] then []
    else
      var d := Distinct(s[..|s| - 1]);
      if s[|s| - 1] in d then d else d + [s[|s| - 1]]
  }

  /** The position of the first occurrence of c in s. */
  function IndexOf(s: seq<char>, c: char): (i: nat)
    requires c in s
    ensures i < |s| && s[i] == c && c !in s[..i]
  {
    if s[0] == c then 0 else 1 + IndexOf(s[1..], c)
  }

  lemma {:induction false} IndexOfPrefix(s: seq<char>, t: seq<char>, c: char)
    requires c in s
    ensures IndexOf(s + t, c) == IndexOf(s, c)
  {
    if s[0] != c {
      assert (s + t)[1..] == s[1..] + t;
      IndexOfPrefix(s[1..], t, c);
    }
  }

  /** Distinct holds each character of s exactly once, holds nothing else, and
      lists the characters in the order of their first occurrence in s. */
  lemma {:induction false} DistinctFirstSeen(s: seq<char>)
    ensures NoDuplicates(Distinct(s))
    ensures forall c :: c in Distinct(s) <==> c in s
    ensures forall i, j :: 0 <= i < j < |Distinct(s)| ==>
              IndexOf(s, Distinct(s)[i]) < IndexOf(s, Distinct(s)[j])
    decreases |s|
  {
    if s != [] {
      var p, x := s[..|s| - 1], s[|s| - 1];
      assert s == p + [x];
      DistinctFirstSeen(p);
      var d := Distinct(p);
      forall c | c in p
        ensures IndexOf(s, c) == IndexOf(p, c)
      {
        IndexOfPrefix(p, [x], c);
      }
      if x !in d {
        assert x !in p;
        assert IndexOf(s, x) == |p|;
      }
    }
  }

  /** getListOfCharacters: walks every character of every line and appends the
      ones not yet in the list. */
  method CharactersOf(lines: seq<seq<char>>) returns (chars: seq<char>)
    ensures chars == Distinct(Flatten(lines))
    ensures NoDuplicates(chars)
    ensures forall c :: c in chars <==> c in Flatten(lines)
    ensures forall i, j :: 0 <= i < j < |chars| ==>
              IndexOf(Flatten(lines), chars[i]) < IndexOf(Flatten(lines), chars[j])
  {
    chars := [];
    for li := 0 to |lines|
      invariant chars == Distinct(Flatten(lines[..li]))
    {
      var line := lines[li];
      ghost var done := Flatten(lines[..li]);
      assert done + line[..0] == done;
      for ci := 0 to |line|
        invariant chars == Distinct(done + line[..ci])
      {
        var c := line[ci];
        assert done + line[..ci + 1] == (done + line[..ci]) + [c];
        if c !in chars {
          chars := chars + [c];
        }
      }
      assert lines[..li + 1][..li] == lines[..li];
      assert line[..|line|] == line;
    }
    assert lines[..|lines|] == lines;
    DistinctFirstSeen(Flatten(lines));
  }

  /** The number of occurrences in s of each character of d, added up. */
  function CountAll(d: seq<char>, s: seq<char>): nat {
    if d == [] then 0 else multiset(s)[d[0]] + CountAll(d[1..], s)
  }

  /** The sum of a list of counts. */
  function Total(xs: seq<nat>): nat {
    if xs == [] then 0 else xs[0] + Total(xs[1..])
  }

  lemma {:induction false} CountAllSnoc(d: seq<char>, s: seq<char>, x: char)
    requires NoDuplicates(d)
    ensures CountAll(d, s + [x]) == CountAll(d, s) + (if x in d then 1 else 0)
    decreases |d|
  {
    if d != [] {
      assert multiset(s + [x]) == multiset(s) + multiset{x};
      CountAllSnoc(d[1..], s, x);
      assert x in d <==> x == d[0] || x in d[1..] by { assert d == [d[0]] + d[1..]; }
    }
  }

  /** When d lists every character of s once, the counts of d's characters add
      up to the length of s. */
  lemma {:induction false} CountAllCovers(d: seq<char>, s: seq<char>)
    requires NoDuplicates(d)
    requires forall c :: c in s ==> c in d
    ensures CountAll(d, s) == |s|
    decreases |s|
  {
    if s == [] {
      CountAllEmpty(d);
    } else {
      var p, x := s[..|s| - 1], s[|s| - 1];
      assert s == p + [x];
      CountAllCovers(d, p);
      CountAllSnoc(d, p, x);
    }
  }

  lemma {:induction false} CountAllEmpty(d: seq<char>)
    ensures CountAll(d, []) == 0
    decreases |d|
  {
    if d != [] {
      CountAllEmpty(d[1..]);
    }
  }

  /** getListOfFrequencies: for each character of chars, counts its occurrences
      over every character of every line. When chars lists every character of
      the lines exactly once (as CharactersOf returns), the counts add up to the
      total number of characters. */
  method FrequenciesOf(lines: seq<seq<char>>, chars: seq<char>) returns (freqs: seq<nat>)
    ensures |freqs| == |chars|
    ensures forall i :: 0 <= i < |chars| ==> freqs[i] == multiset(Flatten(lines))[chars[i]]
    ensures NoDuplicates(chars) && (forall c :: c in Flatten(lines) ==> c in chars) ==>
              Total(freqs) == |Flatten(lines)|
  {
    freqs := [];
    for k := 0 to |chars|
      invariant |freqs| == k
      invariant forall i :: 0 <= i < k ==> freqs[i] == multiset(Flatten(lines))[chars[i]]
    {
      var character := chars[k];
      var counter := 0;
      for li := 0 to |lines|
        invariant counter == multiset(Flatten(lines[..li]))[character]
      {
        var line := lines[li];
        ghost var done := Flatten(lines[..li]);
        assert done + line[..0] == done;
        for ci := 0 to |line|
          invariant counter == multiset(done + line[..ci])[character]
        {
          CountSnoc(done, line, ci, character);
          if line[ci] == character {
            counter := counter + 1;
          }
        }
        assert line[..|line|] == line;
        FlattenSnoc(lines, li);
      }
      assert lines[..|lines|] == lines;
      freqs := freqs + [counter];
    }
    TotalIsCountAll(freqs, chars, Flatten(lines));
    if NoDuplicates(chars) && (forall c :: c in Flatten(lines) ==> c in chars) {
      CountAllCovers(chars, Flatten(lines));
    }
  }

  lemma CountSnoc(done: seq<char>, line: seq<char>, ci: nat, c: char)
    requires ci < |line|
    ensures multiset(done + line[..ci + 1])[c]
         == multiset(done + line[..ci])[c] + (if line[ci] == c then 1 else 0)
  {
    assert done + line[..ci + 1] == (done + line[..ci]) + [line[ci]];
  }

  lemma {:induction false} TotalIsCountAll(freqs: seq<nat>, chars: seq<char>, s: seq<char>)
    requires |freqs| == |chars|
    requires forall i :: 0 <= i < |chars| ==> freqs[i] == multiset(s)[chars[i]]
    ensures Total(freqs) == CountAll(chars, s)
    decreases |chars|
  {
    if chars != [] {
      TotalIsCountAll(freqs[1..], chars[1..], s);
    }
  }
}
