/** Cell values of the attendance sheet and the tests the report script applies
    to them: JavaScript truthiness, `String.prototype.trim`, and the presence
    glyph that stands for a ticked checkbox. */
module Cells {

  /** A cell as the script reads it through `getValues`. Dates and times are
      numbers (the sheet stores them as serial day counts); a formula is held
      as its text. */
  datatype Cell = Bool(b: bool) | Str(s: string) | Num(n: real) | Empty

  /** The presence glyph written in place of a ticked checkbox. */
  const Presence: string := "○"

  /** The code points `trim` removes: ECMAScript WhiteSpace (including every
      Unicode space separator) and LineTerminator. */
  predicate IsWhitespace(ch: char)
  {
    || ch == '\t' || ch == '\n' || ch == '\U{000B}' || ch == '\U{000C}' || ch == '\r'
    || ch == ' ' || ch == '\U{00A0}' || ch == '\U{1680}' || '\U{2000}' <= ch <= '\U{200A}'
    || ch == '\U{2028}' || ch == '\U{2029}' || ch == '\U{202F}' || ch == '\U{205F}'
    || ch == '\U{3000}' || ch == '\U{FEFF}'
  }

  /** Every character of `s` is whitespace. */
  predicate AllWhitespace(s: string)
  {
    forall i | 0 <= i < |s| :: IsWhitespace(s[i])
  }

  /** `s` with its leading whitespace removed. */
  function TrimStart(s: string): (r: string)
    ensures |r| <= |s| && r == s[|s| - |r|..]
    ensures AllWhitespace(s[..|s| - |r|])
    ensures r == [] || !IsWhitespace(r[0])
  {
    if s != [] && IsWhitespace(s[0]) then TrimStart(s[1..]) else s
  }

  /** `s` with its trailing whitespace removed. */
  function TrimEnd(s: string): (r: string)
    ensures |r| <= |s| && r == s[..|r|]
    ensures AllWhitespace(s[|r|..])
    ensures r == [] || !IsWhitespace(r[|r| - 1])
  {
    if s != [] && IsWhitespace(s[|s| - 1]) then TrimEnd(s[..|s| - 1]) else s
  }

  /** JavaScript's `s.trim()`. */
  function Trim(s: string): string
  {
    TrimEnd(TrimStart(s))
  }

  /** A string is blank after `trim` exactly when it consists of whitespace only. */
  lemma TrimEmptyIffAllWhitespace(s: string)
    ensures Trim(s) == "" <==> AllWhitespace(s)
  {
    var t := TrimStart(s);
    if Trim(s) == "" {
      assert t == [];
      forall i | 0 <= i < |s| ensures IsWhitespace(s[i]) {
        assert s[i] == s[..|s| - |t|][i];
      }
    }
  }

  /** JavaScript truthiness of the value `getValues` returns for the cell
      (an empty cell reads as `''`). */
  predicate Truthy(c: Cell)
  {
    match c
    case Bool(b) => b
    case Str(s) => s != ""
    case Num(n) => n != 0.0
    case Empty => false
  }

  /** The test `v && v.toString().trim() !== ''` that marks a row of the key
      column as holding data. `true` prints as "true" and a non-zero number
      prints with at least one digit, so only a string can be truthy and yet
      blank after `trim`. */
  predicate IsKeyCell(c: Cell)
  {
    Truthy(c) && (c.Str? ==> Trim(c.s) != "")
  }

  /** A cell the sheet counts as used when it computes its last row or column:
      anything but an empty cell or the empty string. */
  predicate HasContent(c: Cell)
  {
    c != Empty && c != Str("")
  }

  /** A key cell is always a used cell. */
  lemma KeyCellHasContent(c: Cell)
    ensures IsKeyCell(c) ==> HasContent(c)
  {
  }

  /** The merge step's filter `typeof v === 'string' && v.toString().trim() !== ''`. */
  predicate IsMergeText(c: Cell)
  {
    c.Str? && Trim(c.s) != ""
  }

  /** The per-cell rewrite of the boolean step: `true` becomes the presence
      glyph, `false` the empty string, anything else stays. */
  function NormalizeBoolean(c: Cell): (r: Cell)
    ensures c == Bool(true) ==> r == Str(Presence)
    ensures c == Bool(false) ==> r == Str("")
    ensures !c.Bool? ==> r == c
    ensures !r.Bool?
  {
    match c
    case Bool(b) => if b then Str(Presence) else Str("")
    case _ => c
  }

  /** A cell that marks absence or cancellation: the glyph, or a ticked
      checkbox that the boolean step turns into the glyph. */
  predicate Marked(c: Cell)
  {
    c == Str(Presence) || c == Bool(true)
  }

  /** After the boolean rewrite a cell holds the glyph exactly when it was marked. */
  lemma NormalizeBooleanMarked(c: Cell)
    ensures NormalizeBoolean(c) == Str(Presence) <==> Marked(c)
  {
  }

  /** The presence glyph is not blank after `trim`. */
  lemma PresenceNotBlank()
    ensures Trim(Presence) != ""
  {
    assert !IsWhitespace(Presence[0]);
    TrimEmptyIffAllWhitespace(Presence);
  }

  /** Rewriting a boolean keeps whether the cell marks a data row: `true` and
      the glyph both do, `false` and `''` both do not. */
  lemma NormalizeBooleanKeepsKey(c: Cell)
    ensures IsKeyCell(NormalizeBoolean(c)) == IsKeyCell(c)
  {
    if c == Bool(true) {
      PresenceNotBlank();
    }
  }
}
