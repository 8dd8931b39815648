/**
 The cursor of the lexer: an index into the source and the line and column that are kept up to date with
 it, one character at a time. Range_sub counts both again from the start of the source.
 */
module LexerCursor {
  import opened Basics

  datatype LineColumn = LineColumn(line: nat, column: nat)

  /** Lexer_updatePos */
  function After(p: LineColumn, c: char): LineColumn {
    if c == '\n' then LineColumn(p.line + 1, 0) else p.(column := p.column + 1)
  }

  /** The place of an index. */
  function PlaceOf(src: string, i: nat): LineColumn
    requires i <= |src|
  {
    if i == 0 then LineColumn(0, 0) else After(PlaceOf(src, i - 1), src[i - 1])
  }

  predicate Before(p: LineColumn, q: LineColumn) {
    p.line < q.line || (p.line == q.line && p.column < q.column)
  }

  /** Places grow with the index, so that no two indices have the same one. */
  lemma {:induction false} PlacesGrow(src: string, i: nat, j: nat)
    requires i < j <= |src|
    ensures Before(PlaceOf(src, i), PlaceOf(src, j))
    decreases j
  {
    if i < j - 1 {
      PlacesGrow(src, i, j - 1);
    }
  }

  function Feeds(s: string): nat {
    if s == [] then 0 else Feeds(s[..|s| - 1]) + if s[|s| - 1] == '\n' then 1 else 0
  }

  /** The line is the number of line feeds in front, and the column the distance from the last of them. */
  lemma {:induction false} PlaceCounts(src: string, i: nat)
    requires i <= |src|
    ensures PlaceOf(src, i).line == Feeds(src[..i]) && PlaceOf(src, i).column <= i
    ensures forall k :: i - PlaceOf(src, i).column <= k < i ==> src[k] != '\n'
    ensures PlaceOf(src, i).column < i ==> src[i - PlaceOf(src, i).column - 1] == '\n'
  {
    if i > 0 {
      PlaceCounts(src, i - 1);
      assert src[..i] == src[..i - 1] + [src[i - 1]];
    }
  }

  /** The first index from `i` on whose character is not accepted, or the end. */
  predicate FirstOther(src: string, i: nat, accepts: char -> bool, j: nat) {
    i <= j <= |src| && (forall k :: i <= k < j ==> accepts(src[k])) && (j < |src| ==> !accepts(src[j]))
  }

  /** Range_sub: the range from `start + s` on, with its place counted again; none where an assertion stops it. */
  method SubRange(src: string, start: nat, end: nat, s: nat, len: nat)
    returns (ok: bool, i: nat, e: nat, coord: LineColumn)
    requires start <= end <= |src|
    ensures ok <==> start + s <= end && start + s + len <= end
    ensures ok ==> i == start + s && e == (if len == 0 then end else i + len) && coord == PlaceOf(src, i)
  {
    i, e, coord := start + s, 0, LineColumn(0, 0);
    ok := i <= end;
    if !ok {
      return;
    }
    e := if len == 0 then end else i + len;
    ok := e <= end;
    if !ok {
      return;
    }
    var x := 0;
    while x < i
      invariant x <= i && coord == PlaceOf(src, x)
    {
      coord := After(coord, src[x]);
      x := x + 1;
    }
  }

  /** A token with its range; only the new-line token is made here. */
  datatype Token = NoToken | NewLine(start: nat, end: nat, coord: LineColumn)

  class Cursor {
    const src: string
    var idx: nat
    var pos: LineColumn

    ghost predicate Valid()
      reads this
    {
      idx <= |src| < U32
    }

    /** The place that is kept is the place of the index. */
    ghost predicate Tracked()
      reads this
      requires Valid()
    {
      pos == PlaceOf(src, idx)
    }

    /** Lexer_reset */
    constructor (src: string)
      requires |src| < U32
      ensures Valid() && Tracked() && this.src == src && idx == 0
    {
      this.src := src;
      idx, pos := 0, LineColumn(0, 0);
    }

    /** Lexer_eatWhile, and with the opposite test Lexer_eatUntil */
    method EatWhile(accepts: char -> bool)
      requires Valid() && Tracked()
      modifies this
      ensures Valid() && Tracked() && FirstOther(src, old(idx), accepts, idx)
    {
      while idx < |src| && accepts(src[idx])
        invariant Valid() && Tracked() && old(idx) <= idx
        invariant forall k :: old(idx) <= k < idx ==> accepts(src[k])
        decreases |src| - idx
      {
        pos := After(pos, src[idx]);
        idx := idx + 1;
      }
    }

    static method IsCharIn(chrs: string, c: char) returns (found: bool)
      ensures found <==> c in chrs
    {
      var i := 0;
      while i < |chrs|
        invariant i <= |chrs| && c !in chrs[..i]
      {
        if chrs[i] == c {
          return true;
        }
        i := i + 1;
      }
      return false;
    }

    /** Lexer_eatUntilAnyOf_ */
    method EatUntilAnyOf(chrs: string)
      requires Valid() && Tracked()
      modifies this
      ensures Valid() && Tracked() && FirstOther(src, old(idx), c => c !in chrs, idx)
    {
      while idx < |src|
        invariant Valid() && Tracked() && old(idx) <= idx
        invariant forall k :: old(idx) <= k < idx ==> src[k] !in chrs
        decreases |src| - idx
      {
        var found := IsCharIn(chrs, src[idx]);
        if found {
          return;
        }
        pos := After(pos, src[idx]);
        idx := idx + 1;
      }
    }

    /**
     Lexer_advance: at most to the end of the source. The sum is a 32-bit one: the place stays right exactly
     when it does not wrap around.
     */
    method Advance(n: nat) returns (was: nat)
      requires Valid() && Tracked() && n < U32
      modifies this
      ensures Valid() && was == old(idx)
      ensures Tracked() <==> was + n < U32
      ensures was + n < U32 ==> idx == if was + n < |src| then was + n else |src|
    {
      was := idx;
      var sum := if was + n < U32 then was + n else was + n - U32;
      idx := if |src| < sum then |src| else sum;
      if was + n >= U32 {
        assert sum == was + n - U32 && idx < was;
        PlacesGrow(src, idx, was);
      }
      var i: nat := was;
      while i < idx
        invariant was <= i <= |src| && (i == was || i <= idx) && idx == (if |src| < sum then |src| else sum)
        invariant pos == PlaceOf(src, i)
      {
        pos := After(pos, src[i]);
        i := i + 1;
      }
    }

    /**
     The start of Lexer_next: skips white space, and makes a token of the first new line. The token has the
     index of the line feed, but the place of the character behind it.
     */
    method SkipSpace(isSpace: char -> bool) returns (token: Token)
      requires Valid() && Tracked() && isSpace('\n')
      modifies this
      ensures Valid() && Tracked() && FirstOther(src, old(idx), isSpace, idx)
      ensures token.NoToken? <==> forall k :: old(idx) <= k < idx ==> src[k] != '\n'
      ensures token.NewLine? ==> (old(idx) <= token.start == token.end < idx && src[token.start] == '\n' &&
                (forall k :: old(idx) <= k < token.start ==> src[k] != '\n') &&
                token.coord == PlaceOf(src, token.start + 1) && token.coord != PlaceOf(src, token.start))
    {
      token := NoToken;
      while idx < |src| && isSpace(src[idx])
        invariant Valid() && Tracked() && old(idx) <= idx
        invariant forall k :: old(idx) <= k < idx ==> isSpace(src[k])
        invariant token.NoToken? <==> forall k :: old(idx) <= k < idx ==> src[k] != '\n'
        invariant token.NewLine? ==> (old(idx) <= token.start == token.end < idx && src[token.start] == '\n' &&
                    (forall k :: old(idx) <= k < token.start ==> src[k] != '\n') &&
                    token.coord == PlaceOf(src, token.start + 1) && token.coord != PlaceOf(src, token.start))
        decreases |src| - idx
      {
        pos := After(pos, src[idx]);
        if token.NoToken? && src[idx] == '\n' {
          token := NewLine(idx, idx, pos);
        }
        idx := idx + 1;
      }
    }
  }
}
