/**
 The string primitives the world-map interpreter relies on: ASCII lower-casing
 (`String#downcase`), case-insensitive equality (`String#casecmp(..).zero?`),
 whitespace splitting (`String#split` with no argument) and joining
 (`Array#join`).
 */
module Text {

  /** The characters `String#split` with no argument treats as separators:
      space, tab, newline, vertical tab, form feed and carriage return. */
  predicate IsSpace(c: char) {
    c == ' ' || c == '\t' || c == '\n' || c == '\U{B}' || c == '\U{C}' || c == '\r'
  }

  predicate IsUpper(c: char) {
    'A' <= c <= 'Z'
  }

  /** ASCII lower-casing of one character; every other character is kept. */
  function LowerChar(c: char): char {
    if IsUpper(c) then (c as int - 'A' as int + 'a' as int) as char else c
  }

  /** `s.downcase`, restricted to ASCII letters. */
  function Lower(s: string): (r: string)
    ensures |r| == |s|
    ensures forall i :: 0 <= i < |r| ==> !IsUpper(r[i])
    ensures forall i :: 0 <= i < |r| ==> IsSpace(r[i]) == IsSpace(s[i])
    ensures forall i :: 0 <= i < |s| && !IsUpper(s[i]) ==> r[i] == s[i]
    ensures forall i :: 0 <= i < |s| && IsUpper(s[i]) ==> r[i] as int - 'a' as int == s[i] as int - 'A' as int
  {
    seq(|s|, i requires 0 <= i < |s| => LowerChar(s[i]))
  }

  /** No upper-case ASCII letter occurs in s. */
  predicate IsLowercase(s: string) {
    forall i :: 0 <= i < |s| ==> !IsUpper(s[i])
  }

  /** `a.casecmp(b).zero?`: equal once ASCII case is ignored. */
  predicate EqualsIgnoreCase(a: string, b: string) {
    Lower(a) == Lower(b)
  }

  /** `casecmp` compares character by character: two strings are equal up to
      case iff they have the same length and each pair of characters folds to
      the same character. */
  lemma EqualsIgnoreCaseCharwise(a: string, b: string)
    ensures EqualsIgnoreCase(a, b) <==>
              |a| == |b| && forall i :: 0 <= i < |a| ==> LowerChar(a[i]) == LowerChar(b[i])
  {
    if |a| == |b| && forall i :: 0 <= i < |a| ==> LowerChar(a[i]) == LowerChar(b[i]) {
      assert forall i :: 0 <= i < |a| ==> Lower(a)[i] == Lower(b)[i];
    }
  }

  lemma LowerOfLowercase(s: string)
    requires IsLowercase(s)
    ensures Lower(s) == s
  {
  }

  lemma LowerIdempotent(s: string)
    ensures Lower(Lower(s)) == Lower(s)
  {
    LowerOfLowercase(Lower(s));
  }

  /** On a string that is already lower case, case-insensitive equality with
      a lower-case word is plain equality. */
  lemma EqualsIgnoreCaseOfLowercase(a: string, b: string)
    requires IsLowercase(a) && IsLowercase(b)
    ensures EqualsIgnoreCase(a, b) <==> a == b
  {
    LowerOfLowercase(a);
    LowerOfLowercase(b);
  }

  /** A token: a non-empty run of non-whitespace characters. */
  predicate IsToken(w: string) {
    |w| > 0 && forall i :: 0 <= i < |w| ==> !IsSpace(w[i])
  }

  /** Length of the longest prefix of s whose characters are all whitespace
      (ws = true) or all non-whitespace (ws = false). */
  function Run(s: string, ws: bool): (n: nat)
    ensures n <= |s|
    ensures forall i :: 0 <= i < n ==> IsSpace(s[i]) == ws
    ensures n < |s| ==> IsSpace(s[n]) != ws
    decreases |s|
  {
    if s == [] || IsSpace(s[0]) != ws then 0 else 1 + Run(s[1..], ws)
  }

  /** `s.split` with no argument: leading and trailing whitespace is dropped,
      runs of whitespace separate the tokens, and a blank string has none. */
  function Words(s: string): (ws: seq<string>)
    ensures forall i :: 0 <= i < |ws| ==> IsToken(ws[i])
    decreases |s|
  {
    var lead := Run(s, true);
    if lead == |s| then []
    else
      var rest := s[lead..];
      var n := Run(rest, false);
      assert rest[0] == s[lead] && n > 0;
      assert IsToken(rest[..n]);
      [rest[..n]] + Words(rest[n..])
  }

  /** Splitting a lower-case string yields lower-case tokens. */
  lemma {:induction false} WordsOfLowercase(s: string)
    requires IsLowercase(s)
    ensures forall i :: 0 <= i < |Words(s)| ==> IsLowercase(Words(s)[i])
    decreases |s|
  {
    var lead := Run(s, true);
    if lead < |s| {
      var rest := s[lead..];
      var n := Run(rest, false);
      WordsOfLowercase(rest[n..]);
      assert Words(s) == [rest[..n]] + Words(rest[n..]);
    }
  }

  /** The non-whitespace characters of s, in order. */
  function NonSpace(s: string): string {
    if s == [] then [] else (if IsSpace(s[0]) then [] else [s[0]]) + NonSpace(s[1..])
  }

  /** The tokens laid end to end. */
  function Concat(ws: seq<string>): string {
    if ws == [] then [] else ws[0] + Concat(ws[1..])
  }

  /** `ws.join(sep)`: the empty list joins to the empty string, and otherwise
      one separator goes between each two neighbours and nowhere else. */
  function Join(ws: seq<string>, sep: string): (r: string)
    ensures |ws| == 0 ==> r == []
    ensures |ws| == 1 ==> r == ws[0]
    ensures |ws| > 0 ==> |r| == |Concat(ws)| + (|ws| - 1) * |sep|
  {
    if |ws| == 0 then []
    else if |ws| == 1 then ws[0]
    else ws[0] + sep + Join(ws[1..], sep)
  }

  /** Joining grows at the end, as the interpreter's loop appends one
      separator and one word at a time; with the one-element case this
      determines `Join` completely. */
  lemma {:induction false} JoinSnoc(ws: seq<string>, w: string, sep: string)
    requires |ws| > 0
    ensures Join(ws + [w], sep) == Join(ws, sep) + sep + w
    decreases |ws|
  {
    if |ws| == 1 {
      assert ws + [w] == [ws[0], w];
      assert [ws[0], w][1..] == [w];
    } else {
      assert (ws + [w])[0] == ws[0];
      assert (ws + [w])[1..] == ws[1..] + [w];
      JoinSnoc(ws[1..], w, sep);
    }
  }

  /** A name as the interpreter rebuilds it: it starts with a non-whitespace
      character, and every whitespace character in it is a single ' '
      followed by a non-whitespace character (so none is trailing or doubled). */
  predicate SingleSpaced(s: string) {
    && |s| > 0
    && !IsSpace(s[0])
    && forall i :: 0 <= i < |s| && IsSpace(s[i]) ==> s[i] == ' ' && i + 1 < |s| && !IsSpace(s[i + 1])
  }

  lemma {:induction false} NonSpaceAppend(a: string, b: string)
    ensures NonSpace(a + b) == NonSpace(a) + NonSpace(b)
    decreases |a|
  {
    if a == [] {
      assert a + b == b;
    } else {
      assert (a + b)[1..] == a[1..] + b;
      NonSpaceAppend(a[1..], b);
    }
  }

  lemma {:induction false} NonSpaceOfBlank(s: string)
    requires forall i :: 0 <= i < |s| ==> IsSpace(s[i])
    ensures NonSpace(s) == []
    decreases |s|
  {
    if s != [] {
      NonSpaceOfBlank(s[1..]);
    }
  }

  lemma {:induction false} NonSpaceOfToken(s: string)
    requires forall i :: 0 <= i < |s| ==> !IsSpace(s[i])
    ensures NonSpace(s) == s
    decreases |s|
  {
    if s != [] {
      NonSpaceOfToken(s[1..]);
    }
  }

  /** A whitespace prefix contributes no character. */
  lemma NonSpaceSkipBlank(s: string, k: nat)
    requires k <= |s|
    requires forall i :: 0 <= i < k ==> IsSpace(s[i])
    ensures NonSpace(s) == NonSpace(s[k..])
  {
    assert s == s[..k] + s[k..];
    NonSpaceAppend(s[..k], s[k..]);
    NonSpaceOfBlank(s[..k]);
  }

  /** A prefix without whitespace contributes itself. */
  lemma NonSpaceSkipToken(s: string, k: nat)
    requires k <= |s|
    requires forall i :: 0 <= i < k ==> !IsSpace(s[i])
    ensures NonSpace(s) == s[..k] + NonSpace(s[k..])
  {
    assert s == s[..k] + s[k..];
    NonSpaceAppend(s[..k], s[k..]);
    NonSpaceOfToken(s[..k]);
  }

  lemma ConcatCons(w: string, ws: seq<string>)
    ensures Concat([w] + ws) == w + Concat(ws)
  {
    assert ([w] + ws)[1..] == ws;
  }

  /** Splitting loses no character but whitespace and invents none: the
      tokens laid end to end are exactly the non-whitespace characters. */
  lemma {:induction false} WordsKeepEveryNonSpace(s: string)
    ensures Concat(Words(s)) == NonSpace(s)
    decreases |s|
  {
    var lead := Run(s, true);
    NonSpaceSkipBlank(s, lead);
    if lead == |s| {
      assert s[lead..] == [];
    } else {
      var rest := s[lead..];
      var n := Run(rest, false);
      NonSpaceSkipToken(rest, n);
      WordsKeepEveryNonSpace(rest[n..]);
      ConcatCons(rest[..n], Words(rest[n..]));
    }
  }

  /** A single token splits to itself. */
  lemma WordsOfToken(w: string)
    requires IsToken(w)
    ensures Words(w) == [w]
  {
    assert Run(w, true) == 0;
    assert w[0..] == w;
    assert Run(w, false) == |w|;
    assert w[0..][|w|..] == [];
    assert w[0..][..|w|] == w;
    assert Run([], true) == 0;
  }

  /** A leading whitespace character does not change the tokens. */
  lemma WordsSkipSpace(c: char, t: string)
    requires IsSpace(c)
    ensures Words([c] + t) == Words(t)
  {
    var s := [c] + t;
    var k := Run(t, true);
    assert s[1..] == t;
    assert Run(s, true) == 1 + k;
    assert s[1 + k..] == t[k..];
  }

  /** A token followed by whitespace contributes exactly itself. */
  lemma WordsOfTokenThenSpace(w: string, c: char, t: string)
    requires IsToken(w) && IsSpace(c)
    ensures Words(w + [c] + t) == [w] + Words([c] + t)
  {
    var s := w + [c] + t;
    assert Run(s, true) == 0;
    assert forall i :: 0 <= i < |w| ==> s[i] == w[i];
    assert s[|w|] == c;
    assert Run(s, false) == |w|;
    assert s[0..] == s;
    assert s[..|w|] == w;
    assert s[|w|..] == [c] + t;
  }

  /** Joining tokens with single spaces and splitting again gives the tokens
      back. */
  lemma {:induction false} WordsOfJoin(ws: seq<string>)
    requires forall i :: 0 <= i < |ws| ==> IsToken(ws[i])
    ensures Words(Join(ws, " ")) == ws
    decreases |ws|
  {
    if |ws| == 0 {
      assert Run([], true) == 0;
    } else if |ws| == 1 {
      WordsOfToken(ws[0]);
    } else {
      var tail := Join(ws[1..], " ");
      assert Join(ws, " ") == ws[0] + [' '] + tail;
      WordsOfTokenThenSpace(ws[0], ' ', tail);
      WordsSkipSpace(' ', tail);
      WordsOfJoin(ws[1..]);
      assert [ws[0]] + ws[1..] == ws;
    }
  }

  /** Joining one or more tokens with single spaces yields a single-spaced
      string. */
  lemma {:induction false} JoinSingleSpaced(ws: seq<string>)
    requires |ws| > 0
    requires forall i :: 0 <= i < |ws| ==> IsToken(ws[i])
    ensures SingleSpaced(Join(ws, " "))
    decreases |ws|
  {
    if |ws| > 1 {
      var w := ws[0];
      var tail := Join(ws[1..], " ");
      JoinSingleSpaced(ws[1..]);
      var s := Join(ws, " ");
      assert s == w + [' '] + tail;
      forall i | 0 <= i < |s| && IsSpace(s[i])
        ensures s[i] == ' ' && i + 1 < |s| && !IsSpace(s[i + 1])
      {
        if i == |w| {
          assert s[i + 1] == tail[0];
        } else if i > |w| {
          assert s[i] == tail[i - |w| - 1];
          if i + 1 < |s| {
            assert s[i + 1] == tail[i - |w|];
          }
        }
      }
    }
  }
}
