/** Joining words with a separator character and splitting them apart again. */
module Text {

  /** The words of `ws` with one `sep` between each pair of neighbours. */
  function JoinWith(ws: seq<string>, sep: char): string
  {
    if ws == [] then ""
    else if |ws| == 1 then ws[0]
    else ws[0] + [sep] + JoinWith(ws[1..], sep)
  }

  /** Splits `s` at every `sep`; there is always at least one (possibly empty) piece. */
  function Split(s: string, sep: char): (r: seq<string>)
    ensures |r| >= 1
  {
    if s == [] then [""]
    else if s[0] == sep then [""] + Split(s[1..], sep)
    else
      var rest := Split(s[1..], sep);
      [[s[0]] + rest[0]] + rest[1..]
  }

  lemma {:induction false} SplitWithoutSep(w: string, sep: char)
    requires sep !in w
    ensures Split(w, sep) == [w]
  {
    if w != [] {
      SplitWithoutSep(w[1..], sep);
      assert [w[0]] + w[1..] == w;
    }
  }

  lemma {:induction false} SplitAfterWord(w: string, sep: char, rest: string)
    requires sep !in w
    ensures Split(w + [sep] + rest, sep) == [w] + Split(rest, sep)
  {
    var s := w + [sep] + rest;
    if w == [] {
      assert s[0] == sep && s[1..] == rest;
    } else {
      assert s[0] == w[0] && s[1..] == w[1..] + [sep] + rest;
      SplitAfterWord(w[1..], sep, rest);
      assert [w[0]] + w[1..] == w;
    }
  }

  /** Splitting undoes joining when no word holds the separator. */
  lemma {:induction false} SplitJoinWith(ws: seq<string>, sep: char)
    requires |ws| >= 1
    requires forall i :: 0 <= i < |ws| ==> sep !in ws[i]
    ensures Split(JoinWith(ws, sep), sep) == ws
  {
    if |ws| == 1 {
      SplitWithoutSep(ws[0], sep);
    } else {
      SplitJoinWith(ws[1..], sep);
      SplitAfterWord(ws[0], sep, JoinWith(ws[1..], sep));
      assert [ws[0]] + ws[1..] == ws;
    }
  }

  /** A character that is neither the separator nor in any word is not in the joined text. */
  lemma {:induction false} JoinWithAvoids(ws: seq<string>, sep: char, c: char)
    requires c != sep
    requires forall i :: 0 <= i < |ws| ==> c !in ws[i]
    ensures c !in JoinWith(ws, sep)
  {
    if |ws| > 1 {
      JoinWithAvoids(ws[1..], sep, c);
    }
  }

  lemma {:induction false} JoinWithStartsWithFirst(ws: seq<string>, sep: char)
    requires |ws| >= 1
    ensures ws[0] <= JoinWith(ws, sep)
  {
  }
}
