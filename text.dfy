// Text helpers the key handler relies on: letter tests, upper-casing, joining cells.

module Text {
  /** ASCII letters: the characters `str.isalpha` accepts in this model. */
  predicate IsAlpha(ch: char) {
    ('a' <= ch <= 'z') || ('A' <= ch <= 'Z')
  }

  /** `str.upper` on one ASCII character. */
  function Upper(ch: char): (u: char)
    ensures IsAlpha(ch) ==> 'A' <= u <= 'Z'
    ensures !('a' <= ch <= 'z') ==> u == ch
    ensures 'a' <= ch <= 'z' ==> u as int == ch as int - 32
  {
    if 'a' <= ch <= 'z' then (ch as int - 32) as char else ch
  }

  /** `str.upper` on a whole string. */
  function Upcase(s: string): (u: string)
    ensures |u| == |s|
    ensures forall i :: 0 <= i < |s| && IsAlpha(s[i]) ==> 'A' <= u[i] <= 'Z'
    ensures forall i :: 0 <= i < |s| && !('a' <= s[i] <= 'z') ==> u[i] == s[i]
    ensures forall i :: 0 <= i < |s| && 'a' <= s[i] <= 'z' ==> u[i] as int == s[i] as int - 32
  {
    seq(|s|, i requires 0 <= i < |s| => Upper(s[i]))
  }

  /** A grid cell holding one typed letter (cells are strings, "" when empty). */
  predicate IsLetterCell(cell: string) {
    |cell| == 1 && 'A' <= cell[0] <= 'Z'
  }

  /** `''.join(cells)`. */
  function Join(cells: seq<string>): string {
    if cells == [] then "" else cells[0] + Join(cells[1..])
  }

  /** Joining one-character cells gives one character per cell, in order. */
  lemma {:induction false} JoinSingles(cells: seq<string>)
    requires forall i :: 0 <= i < |cells| ==> |cells[i]| == 1
    ensures |Join(cells)| == |cells|
    ensures forall i :: 0 <= i < |cells| ==> Join(cells)[i] == cells[i][0]
  {
    if cells != [] {
      JoinSingles(cells[1..]);
    }
  }
}
