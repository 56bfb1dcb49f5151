/**
 * The Python `str` operations the dashboard relies on: `partition`,
 * `split`, `'&'.join`, `lstrip`, `replace` and `title`, over `seq<char>`.
 */
module PyStr {

  /** Index of the first occurrence of `x` in `s`. */
  function IndexOf<T(==)>(s: seq<T>, x: T): (i: nat)
    requires x in s
    ensures i < |s| && s[i] == x && x !in s[..i]
  {
    if s[0] == x then 0 else 1 + IndexOf(s[1..], x)
  }

  /** A non-empty sequence is its head followed by its tail, also after a prefix. */
  lemma HeadTail<T>(a: seq<T>, d: seq<T>)
    requires d != []
    ensures d == [d[0]] + d[1..]
    ensures a + [d[0]] + d[1..] == a + d
  {
    assert [d[0]] + d[1..] == d;
    assert a + [d[0]] + d[1..] == a + ([d[0]] + d[1..]);
  }

  /** `s.partition(sep)`: the text before the first `sep`, whether there was one, the rest. */
  function Partition(s: string, sep: char): (r: (string, bool, string))
    ensures r.1 <==> sep in s
    ensures r.1 ==> s == r.0 + [sep] + r.2 && sep !in r.0
    ensures !r.1 ==> r.0 == s && r.2 == []
  {
    if sep in s then
      var i := IndexOf(s, sep);
      assert s == s[..i] + [sep] + s[i + 1..];
      (s[..i], true, s[i + 1..])
    else
      (s, false, [])
  }

  /** A `sep` that follows a separator-free prefix is the one `Partition` splits at. */
  lemma PartitionAt(a: string, sep: char, b: string)
    requires sep !in a
    ensures Partition(a + [sep] + b, sep) == (a, true, b)
  {
    var s := a + [sep] + b;
    var i := IndexOf(s, sep);
    assert s[|a|] == sep;
    assert s[..|a|] == a;
    assert i == |a|;
    assert s[..i] == a;
    assert s[i + 1..] == b;
  }

  /** `sep.join(xs)`. */
  function Join(xs: seq<string>, sep: char): (r: string)
  {
    if |xs| == 0 then []
    else if |xs| == 1 then xs[0]
    else xs[0] + [sep] + Join(xs[1..], sep)
  }

  /** `s.split(sep)`: the pieces between separators; joining them back gives `s`. */
  function Split(s: string, sep: char): (r: seq<string>)
    ensures |r| >= 1
    ensures forall i :: 0 <= i < |r| ==> sep !in r[i]
    ensures Join(r, sep) == s
    decreases |s|
  {
    var (head, found, rest) := Partition(s, sep);
    if found then [head] + Split(rest, sep) else [head]
  }

  /** Splitting undoes joining pieces that hold no separator. */
  lemma {:induction false} SplitJoin(xs: seq<string>, sep: char)
    requires |xs| >= 1
    requires forall i :: 0 <= i < |xs| ==> sep !in xs[i]
    ensures Split(Join(xs, sep), sep) == xs
  {
    if |xs| > 1 {
      var rest := Join(xs[1..], sep);
      assert Join(xs, sep) == xs[0] + [sep] + rest;
      assert Partition(Join(xs, sep), sep) == (xs[0], true, rest) by {
        PartitionAt(xs[0], sep, rest);
      }
      assert Split(rest, sep) == xs[1..] by {
        SplitJoin(xs[1..], sep);
      }
      HeadTail([], xs);
    }
  }

  /** A character outside every piece and different from `sep` is not in the join. */
  lemma {:induction false} JoinExcludes(xs: seq<string>, sep: char, c: char)
    requires c != sep
    requires forall i :: 0 <= i < |xs| ==> c !in xs[i]
    ensures c !in Join(xs, sep)
  {
    if |xs| > 1 {
      JoinExcludes(xs[1..], sep, c);
    }
  }

  /** `s.lstrip(c)` for a single character `c`. */
  function LStrip(s: string, c: char): (r: string)
    ensures |r| <= |s| && r == s[|s| - |r|..]
    ensures r == [] || r[0] != c
    ensures forall i :: 0 <= i < |s| - |r| ==> s[i] == c
  {
    if s != [] && s[0] == c then LStrip(s[1..], c) else s
  }

  /** `s.replace(from, to)` for single characters. */
  function Replace(s: string, from: char, to: char): (r: string)
    ensures |r| == |s|
  {
    if s == [] then [] else [if s[0] == from then to else s[0]] + Replace(s[1..], from, to)
  }

  /** Every `from` becomes `to`; every other character is kept. */
  lemma {:induction false} ReplaceAt(s: string, from: char, to: char, i: nat)
    requires i < |s|
    ensures Replace(s, from, to)[i] == if s[i] == from then to else s[i]
  {
    if i > 0 {
      ReplaceAt(s[1..], from, to, i - 1);
    }
  }

  /** Replacing distributes over a concatenation. */
  lemma {:induction false} ReplaceConcat(a: string, b: string, from: char, to: char)
    ensures Replace(a + b, from, to) == Replace(a, from, to) + Replace(b, from, to)
  {
    if a == [] {
      assert a + b == b;
    } else {
      assert (a + b)[0] == a[0] && (a + b)[1..] == a[1..] + b;
      ReplaceConcat(a[1..], b, from, to);
    }
  }

  /** A string without `from` is left alone. */
  lemma {:induction false} ReplaceAbsent(s: string, from: char, to: char)
    requires from !in s
    ensures Replace(s, from, to) == s
  {
    if s != [] {
      assert s[0] != from;
      ReplaceAbsent(s[1..], from, to);
    }
  }

  predicate IsUpper(c: char) { 'A' <= c <= 'Z' }
  predicate IsLower(c: char) { 'a' <= c <= 'z' }
  /** A cased character; only ASCII letters are cased in this model. */
  predicate IsCased(c: char) { IsUpper(c) || IsLower(c) }

  function ToUpper(c: char): (r: char)
    ensures IsCased(r) == IsCased(c) && !IsLower(r)
  {
    if IsLower(c) then (c as int - 32) as char else c
  }

  function ToLower(c: char): (r: char)
    ensures IsCased(r) == IsCased(c) && !IsUpper(r)
  {
    if IsUpper(c) then (c as int + 32) as char else c
  }

  /** `str.title()` scanning `s`, where `prevCased` says whether the character before was cased. */
  function TitleFrom(s: string, prevCased: bool): string
  {
    if s == [] then []
    else if IsCased(s[0]) then [if prevCased then ToLower(s[0]) else ToUpper(s[0])] + TitleFrom(s[1..], true)
    else [s[0]] + TitleFrom(s[1..], false)
  }

  /** `s.title()`: one character out for each character in. */
  function Title(s: string): (r: string)
    ensures |r| == |s|
  {
    TitleFromLength(s, false);
    TitleFrom(s, false)
  }

  /** Whether position `i` of `s` starts a word: a cased character with no cased character before it. */
  predicate StartsWord(s: string, i: nat)
    requires i < |s|
  {
    IsCased(s[i]) && (i == 0 || !IsCased(s[i - 1]))
  }

  lemma {:induction false} TitleFromAt(s: string, prevCased: bool, i: nat)
    requires i < |s|
    ensures |TitleFrom(s, prevCased)| == |s|
    ensures TitleFrom(s, prevCased)[i] ==
      if !IsCased(s[i]) then s[i]
      else if (i == 0 && prevCased) || (i > 0 && IsCased(s[i - 1])) then ToLower(s[i])
      else ToUpper(s[i])
  {
    if i == 0 {
      TitleFromLength(s[1..], IsCased(s[0]));
    } else {
      TitleFromAt(s[1..], IsCased(s[0]), i - 1);
    }
  }

  lemma {:induction false} TitleFromLength(s: string, prevCased: bool)
    ensures |TitleFrom(s, prevCased)| == |s|
  {
    if s != [] {
      TitleFromLength(s[1..], IsCased(s[0]));
    }
  }

  /**
   * What `title()` does to each character: a letter that starts a word is
   * upper-cased, every other letter is lower-cased, and anything else is kept.
   */
  lemma TitleAt(s: string, i: nat)
    requires i < |s|
    ensures |Title(s)| == |s|
    ensures Title(s)[i] ==
      if !IsCased(s[i]) then s[i]
      else if StartsWord(s, i) then ToUpper(s[i])
      else ToLower(s[i])
  {
    TitleFromAt(s, false, i);
  }

  /** `title()` of a concatenation: the second part continues from the last character of the first. */
  lemma {:induction false} TitleFromConcat(a: string, b: string, prevCased: bool)
    ensures TitleFrom(a + b, prevCased) ==
      TitleFrom(a, prevCased) + TitleFrom(b, if a == [] then prevCased else IsCased(a[|a| - 1]))
  {
    if a == [] {
      assert a + b == b;
    } else {
      assert (a + b)[0] == a[0] && (a + b)[1..] == a[1..] + b;
      TitleFromConcat(a[1..], b, IsCased(a[0]));
    }
  }

  predicate IsLowerWord(w: string)
  {
    |w| > 0 && forall i :: 0 <= i < |w| ==> IsLower(w[i])
  }

  /** A lower-case word keeps its letters after a cased character. */
  lemma {:induction false} TitleFromLowerTail(w: string)
    requires forall i :: 0 <= i < |w| ==> IsLower(w[i])
    ensures TitleFrom(w, true) == w
  {
    if w != [] {
      TitleFromLowerTail(w[1..]);
    }
  }

  /** A word with its first letter upper-cased. */
  function Capitalised(w: string): (r: string)
    requires |w| > 0
    ensures |r| == |w| && r[1..] == w[1..] && !IsLower(r[0])
  {
    [ToUpper(w[0])] + w[1..]
  }

  /** `title()` capitalises a lower-case word and leaves the rest of it alone. */
  lemma TitleLowerWord(w: string)
    requires IsLowerWord(w)
    ensures '_' !in w && Title(w) == Capitalised(w)
  {
    TitleFromLowerTail(w[1..]);
  }

  /** `title()` of lower-case words separated by single spaces capitalises each word. */
  lemma TitleSpaced(w: string, rest: string)
    requires IsLowerWord(w)
    ensures Title(w + [' '] + rest) == Title(w) + [' '] + Title(rest)
  {
    TitleFromConcat(w, [' '] + rest, false);
    assert w + [' '] + rest == w + ([' '] + rest);
    assert ([' '] + rest)[1..] == rest;
  }

  /** Applying `title()` twice is the same as applying it once. */
  lemma TitleIdempotent(s: string)
    ensures Title(Title(s)) == Title(s)
  {
    var t := Title(s);
    TitleFromLength(s, false);
    TitleFromLength(t, false);
    forall i | 0 <= i < |s|
      ensures Title(t)[i] == t[i]
    {
      TitleAt(s, i);
      TitleAt(t, i);
      if i > 0 {
        TitleAt(s, i - 1);
      }
    }
  }
}
