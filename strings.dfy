/**
  Models of the .NET string operations the disk-statistics parser is built on:
  `String.Split(char)`, which keeps empty pieces, and
  `String.Split(char[], StringSplitOptions.RemoveEmptyEntries)`, which drops them.
  Strings are `seq<char>`, sequences of Unicode scalar values.
 */
module Strings {

  /** `char.IsDigit`, restricted to the ASCII digits. */
  predicate IsDigit(c: char) {
    '0' <= c <= '9'
  }

  /** The number of occurrences of `c` in `s`. */
  function Occurrences(s: string, c: char): nat {
    if s == [] then 0 else (if s[0] == c then 1 else 0) + Occurrences(s[1..], c)
  }

  /**
    `s.Split(sep)`: the pieces of `s` between occurrences of `sep`, in order;
    never none (see `SplitPieces`).
   */
  function Split(s: string, sep: char): (r: seq<string>)
    ensures |r| >= 1
  {
    if s == [] then [[]]
    else
      var rest := Split(s[1..], sep);
      if s[0] == sep then [[]] + rest
      else [[s[0]] + rest[0]] + rest[1..]
  }

  /** `String.Join(sep, parts)`: the parts with one separator between neighbours. */
  function Join(parts: seq<string>, sep: char): string {
    if |parts| == 0 then []
    else if |parts| == 1 then parts[0]
    else parts[0] + [sep] + Join(parts[1..], sep)
  }

  /** The `RemoveEmptyEntries` filter: the non-empty pieces, in order. */
  function DropEmpty(pieces: seq<string>): seq<string> {
    if pieces == [] then []
    else (if pieces[0] == [] then [] else [pieces[0]]) + DropEmpty(pieces[1..])
  }

  /**
    `line.Split(new[] { ' ' }, StringSplitOptions.RemoveEmptyEntries)`: the words
    of `line`. Only `' '` separates; every word is non-empty (and holds no space,
    see `TokensAreWords`).
   */
  function Tokens(line: string): seq<string> {
    DropEmpty(Split(line, ' '))
  }

  // ---------------------------------------------------------------------------
  // An independent description of what tokenising does to spacing: collapse
  // every run of spaces to a single space, then trim spaces at both ends.

  /** `s` with every run of spaces replaced by one space. */
  function Collapse(s: string): string {
    if |s| < 2 then s
    else if s[0] == ' ' && s[1] == ' ' then Collapse(s[1..])
    else [s[0]] + Collapse(s[1..])
  }

  /** `s` without its leading spaces. */
  function TrimStart(s: string): string {
    if s != [] && s[0] == ' ' then TrimStart(s[1..]) else s
  }

  /** `s` without its trailing spaces. */
  function TrimEnd(s: string): string {
    if s != [] && s[|s| - 1] == ' ' then TrimEnd(s[..|s| - 1]) else s
  }

  /** `s` with its runs of spaces collapsed and its ends trimmed. */
  function Squeeze(s: string): string {
    TrimEnd(TrimStart(Collapse(s)))
  }

  // ---------------------------------------------------------------------------
  // Splitting and joining

  /**
    There is one piece more than there are separators, so the empty string
    gives one empty piece, and no piece contains the separator.
   */
  lemma {:induction false} SplitPieces(s: string, sep: char)
    ensures |Split(s, sep)| == Occurrences(s, sep) + 1
    ensures forall p :: p in Split(s, sep) ==> sep !in p
  {
    if s != [] {
      SplitPieces(s[1..], sep);
      var rest := Split(s[1..], sep);
      if s[0] != sep {
        assert rest[0] in rest;
        assert forall p :: p in rest[1..] ==> p in rest;
      }
    }
  }

  /** With empty pieces dropped, what is left are pieces of the input. */
  lemma {:induction false} DropEmptyKeeps(pieces: seq<string>)
    ensures forall p :: p in DropEmpty(pieces) ==> p in pieces
  {
    if pieces != [] {
      DropEmptyKeeps(pieces[1..]);
    }
  }

  /** No piece left after dropping the empty ones is empty. */
  lemma {:induction false} DropEmptyNonEmpty(pieces: seq<string>)
    ensures forall p :: p in DropEmpty(pieces) ==> p != []
  {
    if pieces != [] {
      DropEmptyNonEmpty(pieces[1..]);
    }
  }

  /** Every token is a word: non-empty and without a space. */
  lemma TokensAreWords(line: string)
    ensures forall t :: t in Tokens(line) ==> t != [] && ' ' !in t
  {
    SplitPieces(line, ' ');
    DropEmptyKeeps(Split(line, ' '));
    DropEmptyNonEmpty(Split(line, ' '));
  }

  /** Splitting a text at a separator it holds splits it into the pieces of both sides. */
  lemma {:induction false} SplitConcat(a: string, b: string, sep: char)
    ensures Split(a + [sep] + b, sep) == Split(a, sep) + Split(b, sep)
  {
    if a == [] {
      assert a + [sep] + b == [sep] + b;
      assert ([sep] + b)[1..] == b;
    } else {
      assert (a + [sep] + b)[0] == a[0];
      assert (a + [sep] + b)[1..] == a[1..] + [sep] + b;
      SplitConcat(a[1..], b, sep);
    }
  }

  /** A separator-free piece between two separators is one piece of the split. */
  lemma SplitAroundLine(a: string, line: string, b: string, sep: char)
    requires sep !in line
    ensures Split(a + [sep] + line + [sep] + b, sep) == Split(a, sep) + [line] + Split(b, sep)
  {
    assert a + [sep] + line + [sep] + b == a + [sep] + (line + [sep] + b);
    SplitConcat(a, line + [sep] + b, sep);
    SplitConcat(line, b, sep);
    SplitWithoutSeparator(line, sep);
  }

  /** A text without the separator is one piece. */
  lemma {:induction false} SplitWithoutSeparator(s: string, sep: char)
    requires sep !in s
    ensures Split(s, sep) == [s]
  {
    if s != [] {
      assert s[0] in s && sep !in s[1..];
      SplitWithoutSeparator(s[1..], sep);
      assert [s[0]] + s[1..] == s;
    }
  }

  /** Joining the pieces back with the separator gives the text again. */
  lemma {:induction false} JoinSplit(s: string, sep: char)
    ensures Join(Split(s, sep), sep) == s
  {
    if s != [] {
      var rest := Split(s[1..], sep);
      JoinSplit(s[1..], sep);
      if s[0] == sep {
        assert Split(s, sep)[1..] == rest;
      } else if |rest| > 1 {
        var parts := Split(s, sep);
        assert parts[1..] == rest[1..];
        assert Join(rest, sep) == rest[0] + [sep] + Join(rest[1..], sep);
      }
    }
  }

  /** Splitting a join of separator-free parts gives the parts back. */
  lemma {:induction false} SplitJoin(parts: seq<string>, sep: char)
    requires |parts| >= 1
    requires forall p :: p in parts ==> sep !in p
    ensures Split(Join(parts, sep), sep) == parts
  {
    if |parts| == 1 {
      SplitWithoutSeparator(parts[0], sep);
    } else {
      assert parts[0] in parts;
      assert forall p :: p in parts[1..] ==> p in parts;
      SplitJoin(parts[1..], sep);
      SplitConcat(parts[0], Join(parts[1..], sep), sep);
      SplitWithoutSeparator(parts[0], sep);
    }
  }

  /** A character that is neither the separator nor in any part is not in their join. */
  lemma {:induction false} JoinAvoids(parts: seq<string>, sep: char, c: char)
    requires c != sep
    requires forall p :: p in parts ==> c !in p
    ensures c !in Join(parts, sep)
  {
    if |parts| > 1 {
      assert parts[0] in parts;
      assert forall p :: p in parts[1..] ==> p in parts;
      JoinAvoids(parts[1..], sep, c);
    } else if |parts| == 1 {
      assert parts[0] in parts;
    }
  }

  // ---------------------------------------------------------------------------
  // Tokens

  /** Dropping empty pieces distributes over concatenation. */
  lemma {:induction false} DropEmptyConcat(a: seq<string>, b: seq<string>)
    ensures DropEmpty(a + b) == DropEmpty(a) + DropEmpty(b)
  {
    if a != [] {
      assert (a + b)[0] == a[0];
      assert (a + b)[1..] == a[1..] + b;
      DropEmptyConcat(a[1..], b);
    } else {
      assert a + b == b;
    }
  }

  /** A space splits a line into the words before it and the words after it. */
  lemma TokensConcat(a: string, b: string)
    ensures Tokens(a + [' '] + b) == Tokens(a) + Tokens(b)
  {
    SplitConcat(a, b, ' ');
    DropEmptyConcat(Split(a, ' '), Split(b, ' '));
  }

  /** A word list joined with single spaces tokenises back to itself. */
  lemma TokensOfJoin(words: seq<string>)
    requires forall w :: w in words ==> w != [] && ' ' !in w
    ensures Tokens(Join(words, ' ')) == words
  {
    if words != [] {
      SplitJoin(words, ' ');
      DropEmptyAll(words);
    }
  }

  lemma {:induction false} DropEmptyAll(pieces: seq<string>)
    requires forall p :: p in pieces ==> p != []
    ensures DropEmpty(pieces) == pieces
  {
    if pieces != [] {
      assert pieces[0] in pieces;
      assert forall p :: p in pieces[1..] ==> p in pieces;
      DropEmptyAll(pieces[1..]);
    }
  }

  /** How the words of a line change when one character is put in front of it. */
  lemma TokensCons(c: char, r: string)
    ensures c == ' ' ==> Tokens([c] + r) == Tokens(r)
    ensures c != ' ' && (r == [] || r[0] == ' ') ==> Tokens([c] + r) == [[c]] + Tokens(r)
    ensures c != ' ' && r != [] && r[0] != ' ' ==>
      |Tokens(r)| >= 1 && Tokens([c] + r) == [[c] + Tokens(r)[0]] + Tokens(r)[1..]
  {
    var s := [c] + r;
    assert s[0] == c && s[1..] == r;
    var rest := Split(r, ' ');
    assert rest == [rest[0]] + rest[1..];
    DropEmptyConcat([rest[0]], rest[1..]);
    if c != ' ' {
      assert Split(s, ' ') == [[c] + rest[0]] + rest[1..];
      DropEmptyConcat([[c] + rest[0]], rest[1..]);
      if r == [] || r[0] == ' ' {
        assert rest[0] == [];
        assert [c] + rest[0] == [c];
      } else {
        assert rest[0] == [r[0]] + Split(r[1..], ' ')[0];
      }
    }
  }

  lemma {:induction false} JoinCons(c: char, words: seq<string>)
    requires |words| >= 1
    ensures Join([[c] + words[0]] + words[1..], ' ') == [c] + Join(words, ' ')
  {
    var ws := [[c] + words[0]] + words[1..];
    assert ws[1..] == words[1..];
  }

  lemma {:induction false} JoinEmpty(words: seq<string>)
    requires forall w :: w in words ==> w != []
    ensures Join(words, ' ') == [] <==> words == []
  {
    if |words| == 1 {
      assert words[0] in words;
    } else if |words| > 1 {
      assert words[0] in words;
      assert |Join(words, ' ')| >= |words[0]|;
    }
  }

  lemma {:induction false} CollapseHead(s: string)
    requires s != []
    ensures Collapse(s) != [] && Collapse(s)[0] == s[0]
  {
    if |s| >= 2 && s[0] == ' ' && s[1] == ' ' {
      CollapseHead(s[1..]);
    }
  }

  lemma {:induction false} TrimStartIdempotent(s: string)
    ensures TrimStart(TrimStart(s)) == TrimStart(s)
  {
    if s != [] && s[0] == ' ' {
      TrimStartIdempotent(s[1..]);
    }
  }

  lemma {:induction false} CollapseSpace(r: string)
    ensures Collapse([' '] + r) == [' '] + TrimStart(Collapse(r))
  {
    var s := [' '] + r;
    assert s[1..] == r;
    if r == [] {
    } else if r[0] == ' ' {
      assert r == [' '] + r[1..];
      CollapseSpace(r[1..]);
      TrimStartIdempotent(Collapse(r[1..]));
    } else {
      CollapseHead(r);
    }
  }

  lemma {:induction false} TrimEndCons(x: char, w: string)
    ensures TrimEnd([x] + w) == if x == ' ' && TrimEnd(w) == [] then [] else [x] + TrimEnd(w)
    decreases |w|
  {
    var s := [x] + w;
    if w != [] {
      assert s[|s| - 1] == w[|w| - 1];
      assert s[..|s| - 1] == [x] + w[..|w| - 1];
      if w[|w| - 1] == ' ' {
        TrimEndCons(x, w[..|w| - 1]);
      }
    }
  }

  /**
    Joining the words of a line with single spaces gives the line with its runs
    of spaces collapsed to one and its leading and trailing spaces removed.
   */
  lemma {:induction false} JoinTokens(line: string)
    ensures Join(Tokens(line), ' ') == Squeeze(line)
  {
    if line != [] {
      var c, r := line[0], line[1..];
      assert line == [c] + r;
      JoinTokens(r);
      TokensCons(c, r);
      if c == ' ' {
        CollapseSpace(r);
        TrimStartIdempotent(Collapse(r));
      } else {
        CollapseConsWord(c, r);
        TrimEndCons(c, Collapse(r));
        if r == [] {
        } else if r[0] != ' ' {
          CollapseHead(r);
          JoinCons(c, Tokens(r));
        } else {
          var r1 := r[1..];
          assert r == [' '] + r1;
          CollapseSpace(r1);
          var w := TrimStart(Collapse(r1));
          TrimStartIdempotent(Collapse(r1));
          TrimEndCons(' ', w);
          TokensAreWords(r);
          JoinEmpty(Tokens(r));
          if Tokens(r) != [] {
            assert Join([[c]] + Tokens(r), ' ') == [c] + [' '] + Join(Tokens(r), ' ');
          }
        }
      }
    }
  }

  lemma CollapseConsWord(c: char, r: string)
    requires c != ' '
    ensures Collapse([c] + r) == [c] + Collapse(r)
  {
    var s := [c] + r;
    assert s[1..] == r;
  }
}
