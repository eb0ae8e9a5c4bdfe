/**
 * The string primitives the command parsers are built from, over ASCII:
 * Python's `str.strip()`, `str.split(sep)`, `str.replace(a, b)`,
 * `str.lower()`, `str.isdigit()` and `int(...)` on a digit string. `Words`,
 * a split at runs of white space, stands in for the tokenizer `shlex.split`;
 * `Join` states the round trips of the splits and is not used by the parsers.
 */
module Text {

  /** The ASCII characters Python's `str.isspace` accepts: tab through
      carriage return, the separators 0x1C to 0x1F, and the space. */
  predicate IsSpace(c: char) {
    ('\t' <= c <= '\r') || ('\U{1C}' <= c <= '\U{1F}') || c == ' '
  }

  ghost predicate AllSpace(s: string) {
    forall i :: 0 <= i < |s| ==> IsSpace(s[i])
  }

  /** Neither the first nor the last character is white space. */
  predicate Trimmed(s: string) {
    s == [] || (!IsSpace(s[0]) && !IsSpace(s[|s| - 1]))
  }

  // ---------------------------------------------------------------------------
  // str.strip()
  // ---------------------------------------------------------------------------

  /** Length of the run of white space at the front of `s`. */
  function LeadingSpaces(s: string): (n: nat)
    ensures n <= |s|
    ensures n < |s| ==> !IsSpace(s[n])
  {
    if s != [] && IsSpace(s[0]) then 1 + LeadingSpaces(s[1..]) else 0
  }

  /** The leading run is white space. */
  lemma {:induction false} LeadingSpacesAreSpace(s: string)
    ensures AllSpace(s[..LeadingSpaces(s)])
  {
    if s != [] && IsSpace(s[0]) {
      var tail := s[1..];
      LeadingSpacesAreSpace(tail);
      var n := LeadingSpaces(s);
      forall i | 0 <= i < n
        ensures IsSpace(s[..n][i])
      {
        if i > 0 {
          assert s[..n][i] == tail[..n - 1][i - 1];
        }
      }
    }
  }

  /** Length of the run of white space at the end of `s`. */
  function TrailingSpaces(s: string): (n: nat)
    ensures n <= |s|
    ensures n < |s| ==> !IsSpace(s[|s| - n - 1])
  {
    if s != [] && IsSpace(s[|s| - 1]) then 1 + TrailingSpaces(s[..|s| - 1]) else 0
  }

  /** The trailing run is white space. */
  lemma {:induction false} TrailingSpacesAreSpace(s: string)
    ensures AllSpace(s[|s| - TrailingSpaces(s)..])
  {
    if s != [] && IsSpace(s[|s| - 1]) {
      var init := s[..|s| - 1];
      TrailingSpacesAreSpace(init);
      var n := TrailingSpaces(s);
      var run, initRun := s[|s| - n..], init[|init| - (n - 1)..];
      forall i | 0 <= i < n
        ensures IsSpace(run[i])
      {
        if i < n - 1 {
          assert run[i] == s[|s| - n + i];
          assert initRun[i] == init[|init| - (n - 1) + i];
          assert run[i] == initRun[i];
        }
      }
    }
  }

  /** White space followed by text that does not start with white space:
      the leading run is exactly the white space. */
  lemma {:induction false} LeadingSpacesOf(p: string, x: string)
    requires AllSpace(p)
    requires x == [] || !IsSpace(x[0])
    ensures LeadingSpaces(p + x) == |p|
  {
    if p != [] {
      assert (p + x)[1..] == p[1..] + x;
      LeadingSpacesOf(p[1..], x);
    }
  }

  lemma {:induction false} TrailingSpacesOf(x: string, q: string)
    requires AllSpace(q)
    requires x == [] || !IsSpace(x[|x| - 1])
    ensures TrailingSpaces(x + q) == |q|
  {
    if q != [] {
      assert (x + q)[..|x + q| - 1] == x + q[..|q| - 1];
      TrailingSpacesOf(x, q[..|q| - 1]);
    }
  }

  /** Python's `s.strip()`: the text without its leading and trailing white
      space, so that it neither starts nor ends with white space. */
  function Strip(s: string): (r: string)
    ensures Trimmed(r)
    ensures |r| <= |s|
  {
    var t := s[LeadingSpaces(s)..];
    t[..|t| - TrailingSpaces(t)]
  }

  /** `s` is white space, then `Strip(s)`, then white space. */
  lemma StripSplits(s: string) returns (p: string, q: string)
    ensures AllSpace(p) && AllSpace(q) && s == p + Strip(s) + q
  {
    var a := LeadingSpaces(s);
    var t := s[a..];
    LeadingSpacesAreSpace(s);
    TrailingSpacesAreSpace(t);
    StripBetween(s);
    p, q := s[..a], t[|t| - TrailingSpaces(t)..];
  }

  /** The stripped text sits between the leading and the trailing run. */
  lemma StripBetween(s: string)
    ensures var t := s[LeadingSpaces(s)..];
            s == s[..LeadingSpaces(s)] + Strip(s) + t[|t| - TrailingSpaces(t)..]
  {
    var a := LeadingSpaces(s);
    var t := s[a..];
    Reassemble(s, a, t, TrailingSpaces(t));
  }

  lemma Reassemble(s: string, a: nat, t: string, b: nat)
    requires a <= |s| && t == s[a..] && b <= |t|
    ensures s == s[..a] + t[..|t| - b] + t[|t| - b..]
  {
    assert t == t[..|t| - b] + t[|t| - b..];
    assert s == s[..a] + t;
  }

  /** Stripping removes only white space. */
  lemma StripKeeps(s: string, c: char)
    requires !IsSpace(c)
    ensures c in Strip(s) <==> c in s
  {
    var p, q := StripSplits(s);
    assert c !in p && c !in q;
  }

  /** Stripping is determined by the decomposition: white space, a trimmed
      middle, white space. */
  lemma StripExact(p: string, m: string, q: string)
    requires AllSpace(p) && AllSpace(q) && Trimmed(m)
    ensures Strip(p + m + q) == m
  {
    var s := p + m + q;
    if m == [] {
      assert s == (p + q) + [];
      LeadingSpacesOf(p + q, []);
    } else {
      assert s == p + (m + q);
      LeadingSpacesOf(p, m + q);
      assert s[|p|..] == m + q;
      TrailingSpacesOf(m, q);
    }
  }

  /** `s` is leading white space followed by a part that strips the same. */
  lemma SplitLeading(s: string) returns (front: string, rest: string)
    ensures AllSpace(front) && s == front + rest
    ensures rest == [] || !IsSpace(rest[0])
    ensures Strip(rest) == Strip(s)
  {
    var a := LeadingSpaces(s);
    front, rest := s[..a], s[a..];
    LeadingSpacesAreSpace(s);
    assert LeadingSpaces(rest) == 0;
    assert rest[LeadingSpaces(rest)..] == rest;
  }

  /** `s` is a part that strips the same followed by trailing white space. */
  lemma SplitTrailing(s: string) returns (rest: string, back: string)
    ensures AllSpace(back) && s == rest + back
    ensures rest == [] || !IsSpace(rest[|rest| - 1])
    ensures Strip(rest) == Strip(s)
  {
    var p, q := StripSplits(s);
    var m := Strip(s);
    if m == [] {
      rest, back := [], s;
      assert s == p + q by {
        assert s == p + m + q;
      }
      AllSpaceAppend(p, q);
    } else {
      rest, back := p + m, q;
      assert Strip(rest) == m by {
        StripExact(p, m, []);
        assert p + m + [] == rest;
      }
      assert rest[|rest| - 1] == m[|m| - 1];
    }
  }

  lemma AllSpaceAppend(p: string, q: string)
    requires AllSpace(p) && AllSpace(q)
    ensures AllSpace(p + q)
  {
    forall i | 0 <= i < |p + q|
      ensures IsSpace((p + q)[i])
    {
      if i >= |p| {
        assert (p + q)[i] == q[i - |p|];
      }
    }
  }

  /** Stripping twice is stripping once. */
  lemma StripIdempotent(s: string)
    ensures Strip(Strip(s)) == Strip(s)
  {
    StripExact([], Strip(s), []);
    assert [] + Strip(s) + [] == Strip(s);
  }

  // ---------------------------------------------------------------------------
  // str.split(sep), and the join that undoes it
  // ---------------------------------------------------------------------------

  /** Index of the first `c` in `s`, or `|s|` when `c` does not occur. */
  function IndexOf(s: string, c: char): (i: nat)
    ensures i <= |s|
    ensures i < |s| ==> s[i] == c
  {
    if s == [] || s[0] == c then 0 else 1 + IndexOf(s[1..], c)
  }

  /** No `c` comes before the index found. */
  lemma {:induction false} IndexOfFirst(s: string, c: char)
    ensures c !in s[..IndexOf(s, c)]
  {
    if s != [] && s[0] != c {
      var tail := s[1..];
      IndexOfFirst(tail, c);
      var n := IndexOf(s, c);
      forall i | 0 <= i < n
        ensures s[..n][i] != c
      {
        if i > 0 {
          assert s[..n][i] == tail[..n - 1][i - 1];
        }
      }
    }
  }

  /** Python's `s.split(sep)`: the pieces between the separators, in order;
      at least one piece, and no piece holds the separator. */
  function Split(s: string, sep: char): (parts: seq<string>)
    ensures |parts| >= 1
    decreases |s|
  {
    var i := IndexOf(s, sep);
    if i == |s| then [s] else [s[..i]] + Split(s[i + 1..], sep)
  }

  /** No piece of a split holds the separator. */
  lemma {:induction false} SplitOmits(s: string, sep: char)
    ensures forall k :: 0 <= k < |Split(s, sep)| ==> sep !in Split(s, sep)[k]
    decreases |s|
  {
    var i := IndexOf(s, sep);
    IndexOfFirst(s, sep);
    if i < |s| {
      SplitOmits(s[i + 1..], sep);
      assert Split(s, sep) == [s[..i]] + Split(s[i + 1..], sep);
    }
  }

  /** The pieces put back together with `sep` between them, as Python's
      `sep.join(parts)` would; it states the round trips of the splits. */
  function Join(parts: seq<string>, sep: char): string
  {
    if parts == [] then []
    else if |parts| == 1 then parts[0]
    else parts[0] + [sep] + Join(parts[1..], sep)
  }

  /** Splitting and joining back gives the original text. */
  lemma {:induction false} JoinSplit(s: string, sep: char)
    ensures Join(Split(s, sep), sep) == s
    decreases |s|
  {
    var i := IndexOf(s, sep);
    if i < |s| {
      var rest := s[i + 1..];
      JoinSplit(rest, sep);
      JoinCons(s[..i], Split(rest, sep), sep);
      Around(s, i);
    }
  }

  lemma JoinCons(x: string, ys: seq<string>, sep: char)
    requires |ys| >= 1
    ensures Join([x] + ys, sep) == x + [sep] + Join(ys, sep)
  {
    assert ([x] + ys)[1..] == ys;
  }

  /** A text is its part before index `i`, the character there, and the rest. */
  lemma Around(s: string, i: nat)
    requires i < |s|
    ensures s == s[..i] + [s[i]] + s[i + 1..]
  {
  }

  /** The first separator after separator-free text is the one that follows it. */
  lemma {:induction false} IndexOfAfter(a: string, c: char, b: string)
    requires c !in a
    ensures IndexOf(a + [c] + b, c) == |a|
  {
    if a != [] {
      assert (a + [c] + b)[1..] == a[1..] + [c] + b;
      IndexOfAfter(a[1..], c, b);
    }
  }

  /** Joining separator-free pieces and splitting again gives the pieces back. */
  lemma {:induction false} SplitJoin(parts: seq<string>, sep: char)
    requires |parts| >= 1
    requires forall i :: 0 <= i < |parts| ==> sep !in parts[i]
    ensures Split(Join(parts, sep), sep) == parts
  {
    if |parts| > 1 {
      var rest := Join(parts[1..], sep);
      var s := parts[0] + [sep] + rest;
      IndexOfAfter(parts[0], sep, rest);
      assert s[..|parts[0]|] == parts[0];
      assert s[|parts[0]| + 1..] == rest;
      SplitJoin(parts[1..], sep);
    } else {
      assert IndexOf(parts[0], sep) == |parts[0]|;
    }
  }

  // ---------------------------------------------------------------------------
  // The white-space split that stands in for shlex.split
  // ---------------------------------------------------------------------------

  /** A non-empty run of non-space characters. */
  predicate IsWord(w: string) {
    w != [] && forall i :: 0 <= i < |w| ==> !IsSpace(w[i])
  }

  /** Length of the run of non-space characters at the front of `s`. */
  function WordLength(s: string): (n: nat)
    ensures n <= |s|
    ensures n < |s| ==> IsSpace(s[n])
    ensures s != [] && !IsSpace(s[0]) ==> n > 0
  {
    if s != [] && !IsSpace(s[0]) then 1 + WordLength(s[1..]) else 0
  }

  /** The run is free of white space. */
  lemma {:induction false} WordLengthNoSpace(s: string)
    ensures forall i :: 0 <= i < WordLength(s) ==> !IsSpace(s[i])
  {
    if s != [] && !IsSpace(s[0]) {
      WordLengthNoSpace(s[1..]);
      assert forall i :: 1 <= i < WordLength(s) ==> s[i] == s[1..][i - 1];
    }
  }

  /** The maximal runs of non-space characters, in order, as Python's
      `s.split()` gives them; `parse_values` tokenizes with `shlex.split`,
      whose quote handling is not modelled. */
  function Words(s: string): (ws: seq<string>)
    decreases |s|
  {
    var t := s[LeadingSpaces(s)..];
    if t == [] then [] else [t[..WordLength(t)]] + Words(t[WordLength(t)..])
  }

  /** Every word is a non-empty run of non-space characters. */
  lemma {:induction false} WordsAreWords(s: string)
    ensures forall i :: 0 <= i < |Words(s)| ==> IsWord(Words(s)[i])
    decreases |s|
  {
    var t := s[LeadingSpaces(s)..];
    if t == [] {
      assert Words(s) == [];
    } else {
      var n := WordLength(t);
      var rest := t[n..];
      assert Words(s) == [t[..n]] + Words(rest);
      assert IsWord(t[..n]) by {
        WordLengthNoSpace(t);
        forall i | 0 <= i < n
          ensures !IsSpace(t[..n][i])
        {
          assert t[..n][i] == t[i];
        }
      }
      WordsAreWords(rest);
      AllWordsCons(t[..n], Words(rest));
    }
  }

  /** A word in front of a list of words gives a list of words. */
  lemma AllWordsCons(w: string, ws: seq<string>)
    requires IsWord(w)
    requires forall i :: 0 <= i < |ws| ==> IsWord(ws[i])
    ensures forall i :: 0 <= i < |[w] + ws| ==> IsWord(([w] + ws)[i])
  {
    forall i | 0 <= i < |[w] + ws|
      ensures IsWord(([w] + ws)[i])
    {
      if i > 0 {
        assert ([w] + ws)[i] == ws[i - 1];
      }
    }
  }

  /** A character absent from the text is absent from every word of it. */
  lemma {:induction false} WordsOmit(s: string, c: char)
    requires c !in s
    ensures forall i :: 0 <= i < |Words(s)| ==> c !in Words(s)[i]
    decreases |s|
  {
    var a := LeadingSpaces(s);
    var t := s[a..];
    if t != [] {
      var n := WordLength(t);
      var rest := t[n..];
      SliceOmits(s, c, a, a + n);
      assert t[..n] == s[a..a + n];
      SliceOmits(s, c, a + n, |s|);
      assert rest == s[a + n..];
      WordsOmit(rest, c);
      OmitCons(t[..n], Words(rest), c);
    }
  }

  lemma OmitCons(w: string, ws: seq<string>, c: char)
    requires c !in w
    requires forall i :: 0 <= i < |ws| ==> c !in ws[i]
    ensures forall i :: 0 <= i < |[w] + ws| ==> c !in ([w] + ws)[i]
  {
    forall i | 0 < i < |[w] + ws|
      ensures c !in ([w] + ws)[i]
    {
      assert ([w] + ws)[i] == ws[i - 1];
    }
  }

  /** A character absent from a text is absent from each of its slices. */
  lemma SliceOmits(s: string, c: char, a: nat, b: nat)
    requires c !in s && a <= b <= |s|
    ensures c !in s[a..b]
  {
    forall i | 0 <= i < b - a
      ensures s[a..b][i] != c
    {
      assert s[a..b][i] == s[a + i];
    }
  }

  /** The run of non-space characters ends where the white space begins. */
  lemma {:induction false} WordLengthOf(w: string, x: string)
    requires forall i :: 0 <= i < |w| ==> !IsSpace(w[i])
    requires x == [] || IsSpace(x[0])
    ensures WordLength(w + x) == |w|
  {
    if w != [] {
      assert (w + x)[1..] == w[1..] + x;
      WordLengthOf(w[1..], x);
    }
  }

  lemma WordsAfterSpace(c: char, s: string)
    requires IsSpace(c)
    ensures Words([c] + s) == Words(s)
  {
    var t := ([c] + s)[LeadingSpaces([c] + s)..];
    assert ([c] + s)[1..] == s;
    assert t == s[LeadingSpaces(s)..];
  }

  /** White space in front of a text does not change its words. */
  lemma {:induction false} WordsAfterRun(p: string, s: string)
    requires AllSpace(p)
    ensures Words(p + s) == Words(s)
  {
    if p != [] {
      var rest := p[1..];
      assert AllSpace(rest) by {
        forall i | 0 <= i < |rest|
          ensures IsSpace(rest[i])
        {
          assert rest[i] == p[i + 1];
        }
      }
      assert IsSpace(p[0]);
      calc {
        Words(p + s);
        { assert p + s == [p[0]] + (rest + s); }
        Words([p[0]] + (rest + s));
        { WordsAfterSpace(p[0], rest + s); }
        Words(rest + s);
        { WordsAfterRun(rest, s); }
        Words(s);
      }
    } else {
      assert p + s == s;
    }
  }

  /** A word after white space, followed by white space or nothing, is the
      first of the words. */
  lemma WordsPaddedCons(pad: string, w: string, rest: string)
    requires AllSpace(pad) && IsWord(w)
    requires rest == [] || IsSpace(rest[0])
    ensures Words(pad + w + rest) == [w] + Words(rest)
  {
    assert pad + w + rest == pad + (w + rest);
    WordsAfterRun(pad, w + rest);
    WordsCons(w, rest);
  }

  /** Words joined by single spaces split back into the same words. */
  lemma {:induction false} WordsJoin(ws: seq<string>)
    requires forall i :: 0 <= i < |ws| ==> IsWord(ws[i])
    ensures Words(Join(ws, ' ')) == ws
  {
    if ws != [] {
      var w := ws[0];
      if |ws| == 1 {
        WordsCons(w, []);
        assert w + [] == w;
      } else {
        var tail := Join(ws[1..], ' ');
        calc {
          Words(Join(ws, ' '));
          { JoinCons(w, ws[1..], ' '); assert [w] + ws[1..] == ws; }
          Words(w + [' '] + tail);
          { assert w + [' '] + tail == w + ([' '] + tail); WordsCons(w, [' '] + tail); }
          [w] + Words([' '] + tail);
          { WordsAfterSpace(' ', tail); WordsJoin(ws[1..]); }
          [w] + ws[1..];
          ws;
        }
      }
    }
  }

  /** Words each preceded by white space of its own, joined by single
      spaces, split back into the words. */
  lemma WordsJoinPadded(items: seq<string>, pads: seq<string>, ws: seq<string>)
    requires |items| == |pads| == |ws|
    requires forall i :: 0 <= i < |ws| ==> items[i] == pads[i] + ws[i]
    requires forall i :: 0 <= i < |pads| ==> AllSpace(pads[i])
    requires forall i :: 0 <= i < |ws| ==> IsWord(ws[i])
    ensures Words(Join(items, ' ')) == ws
  {
    WordsJoinPaddedFrom(items, pads, ws, 0);
    assert items[0..] == items && ws[0..] == ws;
  }

  /** The same, for the items from index `k` on. */
  lemma {:induction false} WordsJoinPaddedFrom(items: seq<string>, pads: seq<string>, ws: seq<string>, k: nat)
    requires |items| == |pads| == |ws| && k <= |ws|
    requires forall i :: 0 <= i < |ws| ==> items[i] == pads[i] + ws[i]
    requires forall i :: 0 <= i < |pads| ==> AllSpace(pads[i])
    requires forall i :: 0 <= i < |ws| ==> IsWord(ws[i])
    ensures Words(Join(items[k..], ' ')) == ws[k..]
    decreases |ws| - k
  {
    if k == |ws| - 1 {
      assert Join(items[k..], ' ') == pads[k] + ws[k] + [] by {
        assert items[k..] == [items[k]];
      }
      WordsPaddedCons(pads[k], ws[k], []);
      assert ws[k..] == [ws[k]];
    } else if k < |ws| - 1 {
      assert Words(Join(items[k..], ' ')) == [ws[k]] + Words(Join(items[k + 1..], ' ')) by {
        assert items[k..][1..] == items[k + 1..];
        WordsJoinPaddedHead(items[k..], pads[k], ws[k]);
      }
      WordsJoinPaddedFrom(items, pads, ws, k + 1);
      assert ws[k..] == [ws[k]] + ws[k + 1..];
    } else {
      assert items[k..] == [] && ws[k..] == [];
    }
  }

  /** Of several items joined by spaces, the first a padded word, that word
      is the first of the words and the other items give the rest. */
  lemma WordsJoinPaddedHead(items: seq<string>, pad: string, w: string)
    requires |items| > 1 && items[0] == pad + w
    requires AllSpace(pad) && IsWord(w)
    ensures Words(Join(items, ' ')) == [w] + Words(Join(items[1..], ' '))
  {
    var tail := Join(items[1..], ' ');
    assert Join(items, ' ') == pad + w + ([' '] + tail) by {
      assert Join(items, ' ') == items[0] + [' '] + tail;
    }
    WordsPaddedSpace(pad, w, tail);
  }

  /** A padded word, a space and more text: the word, then the words of the
      rest. */
  lemma WordsPaddedSpace(pad: string, w: string, tail: string)
    requires AllSpace(pad) && IsWord(w)
    ensures Words(pad + w + ([' '] + tail)) == [w] + Words(tail)
  {
    WordsPaddedCons(pad, w, [' '] + tail);
    WordsAfterSpace(' ', tail);
  }

  /** Padded words separated by commas, with the commas turned into spaces,
      split back into the words. */
  lemma WordsReplaceJoinPadded(items: seq<string>, pads: seq<string>, ws: seq<string>)
    requires |items| == |pads| == |ws|
    requires forall i :: 0 <= i < |ws| ==>
               items[i] == pads[i] + ws[i] && AllSpace(pads[i])
               && IsWord(ws[i]) && ',' !in ws[i]
    ensures Words(Replace(Join(items, ','), ',', ' ')) == ws
  {
    forall i | 0 <= i < |items|
      ensures ',' !in items[i]
    {
      assert ',' !in pads[i] by {
        forall j | 0 <= j < |pads[i]|
          ensures pads[i][j] != ','
        {
          assert IsSpace(pads[i][j]);
        }
      }
    }
    ReplaceJoin(items, ',', ' ');
    WordsJoinPadded(items, pads, ws);
  }

  /** A word followed by white space or nothing is the first of the words. */
  lemma WordsCons(w: string, rest: string)
    requires IsWord(w)
    requires rest == [] || IsSpace(rest[0])
    ensures Words(w + rest) == [w] + Words(rest)
  {
    var s := w + rest;
    LeadingSpacesOf([], s);
    assert [] + s == s;
    WordLengthOf(w, rest);
    assert s[..|w|] == w;
    assert s[|w|..] == rest;
  }

  // ---------------------------------------------------------------------------
  // str.replace(a, b) and str.lower()
  // ---------------------------------------------------------------------------

  /** Python's `s.replace(a, b)` for single characters. */
  function Replace(s: string, a: char, b: char): (r: string)
    ensures |r| == |s|
    ensures forall i :: 0 <= i < |s| ==> r[i] == if s[i] == a then b else s[i]
  {
    seq(|s|, i requires 0 <= i < |s| => if s[i] == a then b else s[i])
  }

  /** Replacing the separator of a join is joining with the other separator. */
  lemma {:induction false} ReplaceJoin(parts: seq<string>, a: char, b: char)
    requires forall i :: 0 <= i < |parts| ==> a !in parts[i]
    ensures Replace(Join(parts, a), a, b) == Join(parts, b)
  {
    if |parts| == 1 {
      assert Replace(parts[0], a, b) == parts[0];
    } else if |parts| > 1 {
      ReplaceJoin(parts[1..], a, b);
      var x, y := parts[0] + [a], Join(parts[1..], a);
      assert Replace(x + y, a, b) == Replace(x, a, b) + Replace(y, a, b);
      assert Replace(x, a, b) == parts[0] + [b];
    }
  }

  function LowerChar(c: char): char {
    if 'A' <= c <= 'Z' then (c as int - 'A' as int + 'a' as int) as char else c
  }

  /** Python's `s.lower()` on ASCII letters. */
  function Lower(s: string): (r: string)
    ensures |r| == |s|
    ensures forall i :: 0 <= i < |s| ==> r[i] == LowerChar(s[i])
  {
    seq(|s|, i requires 0 <= i < |s| => LowerChar(s[i]))
  }

  // ---------------------------------------------------------------------------
  // str.isdigit() and int(s)
  // ---------------------------------------------------------------------------

  predicate IsDigit(c: char) {
    '0' <= c <= '9'
  }

  /** Python's `s.isdigit()` on ASCII: non-empty and digits only. */
  predicate AllDigits(s: string) {
    s != [] && forall i :: 0 <= i < |s| ==> IsDigit(s[i])
  }

  function DigitValue(c: char): nat
    requires IsDigit(c)
  {
    c as int - '0' as int
  }

  function DigitChar(d: nat): char
    requires d < 10
  {
    ('0' as int + d) as char
  }

  /** Python's `int(s)` on a string of decimal digits (leading zeros allowed). */
  function DigitsValue(s: string): nat
    requires forall i :: 0 <= i < |s| ==> IsDigit(s[i])
  {
    if s == [] then 0 else 10 * DigitsValue(s[..|s| - 1]) + DigitValue(s[|s| - 1])
  }

  /** The decimal numeral of `n`, without leading zeros. */
  function ShowNat(n: nat): (s: string)
    ensures AllDigits(s)
    ensures n > 0 ==> s[0] != '0'
  {
    if n < 10 then [DigitChar(n)] else ShowNat(n / 10) + [DigitChar(n % 10)]
  }

  /** `int(str(n)) == n`. */
  lemma {:induction false} DigitsValueShowNat(n: nat)
    ensures DigitsValue(ShowNat(n)) == n
  {
    if n >= 10 {
      var s := ShowNat(n);
      assert s[..|s| - 1] == ShowNat(n / 10);
      DigitsValueShowNat(n / 10);
    }
  }

  /** Leading zeros do not change the value: `int("007") == 7`. */
  lemma {:induction false} DigitsValueLeadingZero(s: string)
    requires forall i :: 0 <= i < |s| ==> IsDigit(s[i])
    ensures DigitsValue("0" + s) == DigitsValue(s)
  {
    if s != [] {
      var z := "0" + s;
      assert z[..|z| - 1] == "0" + s[..|s| - 1];
      DigitsValueLeadingZero(s[..|s| - 1]);
    }
  }
}
