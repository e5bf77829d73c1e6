/** The `str` operations the bencode reader leans on: `find` and `split`
    with a `char` pattern, over text whose characters are all ASCII, so
    that byte offsets and character positions coincide. */
module RustStr {
  import opened Outcomes

  predicate IsAscii(s: string) {
    forall i | 0 <= i < |s| :: s[i] < 128 as char
  }

  /** `str::find(c)`: the position of the first `c` in `s`. */
  function Find(s: string, c: char): (r: Option<nat>)
    ensures r.None? <==> c !in s
    ensures r.Some? ==> r.value < |s| && s[r.value] == c && c !in s[..r.value]
  {
    if s == [] then None
    else if s[0] == c then Some(0)
    else match Find(s[1..], c)
      case None => None
      case Some(i) =>
        assert s[..i + 1] == [s[0]] + s[1..][..i];
        Some(i + 1)
  }

  /** The first `c` after a stretch of text without `c` is the one that
      ends the stretch. */
  lemma {:induction false} FindAfterPrefix(a: string, b: string, c: char)
    requires c !in a
    ensures Find(a + [c] + b, c) == Some(|a|)
  {
    var s := a + [c] + b;
    if a == [] {
      assert s[0] == c;
    } else {
      assert s[0] == a[0] && a[0] != c;
      assert s[1..] == a[1..] + [c] + b;
      FindAfterPrefix(a[1..], b, c);
    }
  }

  /** `str::split(sep)`, collected: the pieces between separators, empty
      ones included, so that there is always one piece more than there are
      separators. */
  function Split(s: string, sep: char): (pieces: seq<string>)
    ensures |pieces| == multiset(s)[sep] + 1
    ensures forall p | p in pieces :: sep !in p
    decreases |s|
  {
    if s == [] then [[]]
    else
      var rest := Split(s[1..], sep);
      assert s == [s[0]] + s[1..];
      if s[0] == sep then [[]] + rest
      else [[s[0]] + rest[0]] + rest[1..]
  }

  /** The inverse of `Split`: the pieces glued back with the separator. */
  function Join(pieces: seq<string>, sep: char): string
  {
    if |pieces| == 0 then []
    else if |pieces| == 1 then pieces[0]
    else pieces[0] + [sep] + Join(pieces[1..], sep)
  }

  /** Joining after an empty first piece starts with the separator. */
  lemma JoinAfterEmptyPiece(pieces: seq<string>, sep: char)
    requires |pieces| > 0
    ensures Join([[]] + pieces, sep) == [sep] + Join(pieces, sep)
  {
    assert ([[]] + pieces)[1..] == pieces;
  }

  /** Joining after a character is put in front of the first piece starts
      with that character. */
  lemma JoinExtendedFirstPiece(c: char, pieces: seq<string>, sep: char)
    requires |pieces| > 0
    ensures Join([[c] + pieces[0]] + pieces[1..], sep) == [c] + Join(pieces, sep)
  {
    var extended := [[c] + pieces[0]] + pieces[1..];
    if |pieces| > 1 {
      assert extended[1..] == pieces[1..];
    }
  }

  /** Splitting loses nothing: joining the pieces gives back the input. */
  lemma {:induction false} JoinSplit(s: string, sep: char)
    ensures Join(Split(s, sep), sep) == s
    decreases |s|
  {
    if s != [] {
      var rest := Split(s[1..], sep);
      JoinSplit(s[1..], sep);
      if s[0] == sep {
        assert Split(s, sep) == [[]] + rest;
        JoinAfterEmptyPiece(rest, sep);
      } else {
        assert Split(s, sep) == [[s[0]] + rest[0]] + rest[1..];
        JoinExtendedFirstPiece(s[0], rest, sep);
      }
      assert s == [s[0]] + s[1..];
    }
  }

  /** Text with no separator is a single piece. */
  lemma {:induction false} SplitWithoutSeparator(a: string, sep: char)
    requires sep !in a
    ensures Split(a, sep) == [a]
    decreases |a|
  {
    if a != [] {
      SplitWithoutSeparator(a[1..], sep);
      assert a == [a[0]] + a[1..];
    }
  }

  /** Splitting at the first separator: the text before it is the first
      piece and the rest is split on its own. */
  lemma {:induction false} SplitAtFirst(a: string, b: string, sep: char)
    requires sep !in a
    ensures Split(a + [sep] + b, sep) == [a] + Split(b, sep)
    decreases |a|
  {
    var s := a + [sep] + b;
    if a == [] {
      assert s[0] == sep && s[1..] == b;
    } else {
      assert s[0] == a[0] && s[1..] == a[1..] + [sep] + b;
      assert sep !in a[1..];
      SplitAtFirst(a[1..], b, sep);
      var rest := Split(s[1..], sep);
      assert rest == [a[1..]] + Split(b, sep);
      assert Split(s, sep) == [[a[0]] + rest[0]] + rest[1..];
      assert [a[0]] + a[1..] == a;
      assert rest[1..] == Split(b, sep);
    }
  }

  /** Every character of every piece comes from the input. */
  lemma {:induction false} SplitPiecesFromInput(s: string, sep: char)
    ensures forall i, j | 0 <= i < |Split(s, sep)| && 0 <= j < |Split(s, sep)[i]| ::
      Split(s, sep)[i][j] in s
    decreases |s|
  {
    if s != [] {
      SplitPiecesFromInput(s[1..], sep);
      assert forall c | c in s[1..] :: c in s;
    }
  }
}
