/** The species name the operator types in single-species mode: it must split
    into exactly two whitespace-separated words, genus then epithet. */
module SpeciesName {
  import opened Specimens

  /** The characters Python's `str.split()` splits on. */
  predicate IsSpace(c: char) {
    c == ' ' || c == '\t' || c == '\n' || c == '\r' || c == '\U{0B}' || c == '\U{0C}'
  }

  /** A non-empty run of characters none of which is whitespace. */
  predicate IsWord(w: string) {
    w != [] && forall i :: 0 <= i < |w| ==> !IsSpace(w[i])
  }

  /** A run of whitespace only (possibly empty). */
  predicate AllSpace(s: string) {
    forall i :: 0 <= i < |s| ==> IsSpace(s[i])
  }

  /** The length of the run of non-whitespace characters `s` starts with. */
  function WordLength(s: string): (n: nat)
    ensures n <= |s|
    ensures forall i :: 0 <= i < n ==> !IsSpace(s[i])
    ensures n < |s| ==> IsSpace(s[n])
  {
    if s == [] || IsSpace(s[0]) then 0 else 1 + WordLength(s[1..])
  }

  /** Python's `s.split()`: the maximal runs of non-whitespace characters, in order. */
  function Words(s: string): (ws: seq<string>)
    ensures forall i :: 0 <= i < |ws| ==> IsWord(ws[i])
    ensures ws == [] <==> AllSpace(s)
    decreases |s|
  {
    if s == [] then []
    else if IsSpace(s[0]) then
      assert forall i :: 0 < i < |s| ==> s[i] == s[1..][i - 1];
      Words(s[1..])
    else
      var n := WordLength(s);
      [s[..n]] + Words(s[n..])
  }

  /** `name.split()` unpacked into genus and epithet; the unpacking fails
      (reported to the operator as "must be two words") unless there are
      exactly two words. */
  function ParseName(name: string): (r: Option<(string, string)>)
    ensures r.Some? <==> |Words(name)| == 2
    ensures r.Some? ==> IsWord(r.value.0) && IsWord(r.value.1) && Words(name) == [r.value.0, r.value.1]
  {
    var ws := Words(name);
    if |ws| == 2 then Some((ws[0], ws[1])) else None
  }

  lemma {:induction false} WordLengthOfWord(w: string, rest: string)
    requires forall i :: 0 <= i < |w| ==> !IsSpace(w[i])
    requires rest == [] || IsSpace(rest[0])
    ensures WordLength(w + rest) == |w|
  {
    if w != [] {
      assert (w + rest)[1..] == w[1..] + rest;
      WordLengthOfWord(w[1..], rest);
    } else {
      assert w + rest == rest;
    }
  }

  /** A word followed by whitespace or by nothing splits off as the first word. */
  lemma WordsOfWordThen(w: string, rest: string)
    requires IsWord(w)
    requires rest == [] || IsSpace(rest[0])
    ensures Words(w + rest) == [w] + Words(rest)
  {
    WordLengthOfWord(w, rest);
    assert (w + rest)[..|w|] == w && (w + rest)[|w|..] == rest;
  }

  /** Leading whitespace of any kind is skipped. */
  lemma WordsAfterSpace(c: char, rest: string)
    requires IsSpace(c)
    ensures Words([c] + rest) == Words(rest)
  {
    assert ([c] + rest)[1..] == rest;
  }

  /** A whole run of leading whitespace is skipped. */
  lemma {:induction false} WordsAfterSpaces(a: string, rest: string)
    requires AllSpace(a)
    ensures Words(a + rest) == Words(rest)
  {
    if a != [] {
      assert a + rest == [a[0]] + (a[1..] + rest);
      WordsAfterSpace(a[0], a[1..] + rest);
      assert AllSpace(a[1..]) by {
        forall i | 0 <= i < |a[1..]| ensures IsSpace(a[1..][i]) {
          assert a[1..][i] == a[i + 1];
        }
      }
      WordsAfterSpaces(a[1..], rest);
    } else {
      assert a + rest == rest;
    }
  }

  /** Where the first word of `s` sits: after a run of whitespace `a`, and
      followed by a remainder `t` that is empty or starts with whitespace and
      holds the other words. */
  lemma {:induction false} WordsFirst(s: string) returns (a: string, t: string)
    requires Words(s) != []
    ensures AllSpace(a)
    ensures s == a + Words(s)[0] + t
    ensures t == [] || IsSpace(t[0])
    ensures Words(t) == Words(s)[1..]
  {
    if IsSpace(s[0]) {
      var w := Words(s)[0];
      assert Words(s) == Words(s[1..]);
      var a', t' := WordsFirst(s[1..]);
      a, t := SpaceBefore(s[0], a', w, t', s[1..]);
      assert s == [s[0]] + s[1..];
    } else {
      var n := WordLength(s);
      assert Words(s) == [s[..n]] + Words(s[n..]);
      a, t := [], s[n..];
      assert s == a + s[..n] + s[n..];
    }
  }

  /** A whitespace character put in front of a whitespace run. */
  lemma SpaceBefore(c: char, a': string, w: string, t: string, rest: string) returns (a: string, t': string)
    requires IsSpace(c) && AllSpace(a') && rest == a' + w + t
    ensures a == [c] + a' && t' == t && AllSpace(a)
    ensures [c] + rest == a + w + t'
  {
    a, t' := [c] + a', t;
    assert AllSpace(a) by {
      forall i | 0 <= i < |a| ensures IsSpace(a[i]) {
        if i > 0 { assert a[i] == a'[i - 1]; }
      }
    }
  }

  /** A genus and an epithet separated by whitespace, with any whitespace
      before and after, parse back to the same pair. */
  lemma {:induction false} ParseJoinedName(a: string, genus: string, b: string, epithet: string, c: string)
    requires IsWord(genus) && IsWord(epithet)
    requires AllSpace(a) && AllSpace(b) && b != [] && AllSpace(c)
    ensures ParseName(a + genus + b + epithet + c) == Some((genus, epithet))
  {
    var tail := b + (epithet + c);
    assert Words(tail) == [epithet] by {
      WordsAfterSpaces(b, epithet + c);
      WordsOfWordThen(epithet, c);
    }
    var rest := genus + tail;
    assert Words(rest) == [genus, epithet] by {
      WordsOfWordThen(genus, tail);
    }
    WordsAfterSpaces(a, rest);
    assert a + genus + b + epithet + c == a + rest;
  }

  /** Conversely, every accepted name is genus and epithet separated by
      whitespace, with only whitespace before and after. */
  lemma ParseNameShape(name: string)
    requires ParseName(name).Some?
    ensures var (genus, epithet) := ParseName(name).value;
      exists a, b, c :: AllSpace(a) && AllSpace(b) && b != [] && AllSpace(c) &&
        name == a + genus + b + epithet + c
  {
    var (genus, epithet) := ParseName(name).value;
    var a, t := WordsFirst(name);
    var b, c := WordsFirst(t);
    assert name == a + genus + b + epithet + c;
  }

  /** A single word is rejected. */
  lemma ParseRejectsOneWord(a: string)
    requires IsWord(a)
    ensures ParseName(a).None?
  {
    WordsOfWordThen(a, []);
    assert a + [] == a;
  }

  /** A space then a word followed by whitespace or nothing: that word comes first. */
  lemma SpaceThenWord(w: string, rest: string)
    requires IsWord(w)
    requires rest == [] || IsSpace(rest[0])
    ensures Words([' '] + (w + rest)) == [w] + Words(rest)
  {
    WordsAfterSpace(' ', w + rest);
    WordsOfWordThen(w, rest);
  }

  /** Three words are rejected. */
  lemma {:induction false} ParseRejectsThreeWords(a: string, b: string, c: string)
    requires IsWord(a) && IsWord(b) && IsWord(c)
    ensures ParseName(a + " " + b + " " + c).None?
  {
    var last := [' '] + (c + []);
    SpaceThenWord(c, []);
    var tail := [' '] + (b + last);
    SpaceThenWord(b, last);
    WordsOfWordThen(a, tail);
    JoinThree(a, b, c);
  }

  lemma JoinThree(a: string, b: string, c: string)
    ensures a + " " + b + " " + c == a + ([' '] + (b + ([' '] + (c + []))))
  {
    assert c + [] == c;
  }
}
