/**
 * The PHP string built-ins the report relies on: truthiness of a nullable
 * string (`!$s`, `empty($s)`), `strtoupper` and `implode`.
 *
 * A PHP string is a sequence of bytes; here each `char` stands for one byte.
 */
module PhpStrings {
  import opened Wrappers

  /**
   * PHP's `!$s` and `empty($s)` on a value that is a string or null:
   * `null`, `""` and `"0"` are the falsy ones.
   */
  predicate IsEmpty(s: Option<string>) {
    s.None? || s.value == "" || s.value == "0"
  }

  predicate IsLowerAscii(c: char) {
    'a' <= c <= 'z'
  }

  /** s holds at least one ASCII lower-case letter. */
  predicate HasLowerAscii(s: string) {
    exists i :: 0 <= i < |s| && IsLowerAscii(s[i])
  }

  /** `strtoupper` on one byte: only the ASCII letters a..z change. */
  function UpperChar(c: char): char {
    if IsLowerAscii(c) then (c as int - 32) as char else c
  }

  /** `strtoupper`: every byte mapped through UpperChar, in place. */
  function ToUpper(s: string): string {
    seq(|s|, i requires 0 <= i < |s| => UpperChar(s[i]))
  }

  /** The upper-cased string keeps the length and has no lower-case ASCII letter left. */
  lemma ToUpperHasNoLowercase(s: string)
    ensures |ToUpper(s)| == |s|
    ensures forall i :: 0 <= i < |s| ==> !IsLowerAscii(ToUpper(s)[i])
  {
  }

  /** A string without lower-case ASCII letters is its own upper-case form. */
  lemma ToUpperFixesUpper(s: string)
    requires forall i :: 0 <= i < |s| ==> !IsLowerAscii(s[i])
    ensures ToUpper(s) == s
  {
    assert forall i :: 0 <= i < |s| ==> ToUpper(s)[i] == s[i];
  }

  /** `implode(sep, parts)`: the parts in order with `sep` between neighbours. */
  function Join(sep: string, parts: seq<string>): string
    decreases |parts|
  {
    if |parts| == 0 then ""
    else if |parts| == 1 then parts[0]
    else parts[0] + sep + Join(sep, parts[1..])
  }

  /** Two parts are joined around one separator. */
  lemma JoinPair(sep: string, x: string, y: string)
    ensures Join(sep, [x, y]) == x + sep + y
  {
    assert [x, y][1..] == [y];
  }

  /** The joined string starts with the first part, so it is not empty when that part is not. */
  lemma {:induction false} JoinStartsWithFirst(sep: string, parts: seq<string>)
    requires parts != []
    ensures parts[0] <= Join(sep, parts)
    ensures parts[0] != "" ==> Join(sep, parts) != ""
  {
    if |parts| > 1 {
      assert Join(sep, parts) == parts[0] + (sep + Join(sep, parts[1..]));
    }
  }
}
