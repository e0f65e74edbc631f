/**
 * `preg_replace("#</?[^>]>#", '', s)`: one global, left-to-right pass that
 * deletes every non-overlapping match of the pattern
 *
 *     "<", then an optional "/", then ONE byte other than ">", then ">".
 *
 * The pattern has no quantifier, so only tags with a single byte of content
 * (`<b>`, `</b>`, `</>`) are removed; `<span>` survives.
 */
module TagStripper {
  import opened PhpStrings

  /** The separator `implode` puts between group titles. */
  const Separator: string := ", "

  /** The text of a match: "<" + ("/" if slash) + [c] + ">". */
  function TagText(slash: bool, c: char): string {
    "<" + (if slash then "/" else "") + [c] + ">"
  }

  /** t belongs to the language of the pattern `</?[^>]>`. */
  ghost predicate IsShortTag(t: string) {
    exists slash: bool, c: char :: c != '>' && t == TagText(slash, c)
  }

  /**
   * The length of the match the regex engine finds when it is anchored at
   * the start of s, or 0 when there is none. The engine tries the "/" branch
   * first and falls back to the branch without it.
   */
  function MatchLength(s: string): (n: nat)
    ensures n == 0 || n == 3 || n == 4
    ensures n <= |s|
  {
    if 4 <= |s| && s[0] == '<' && s[1] == '/' && s[2] != '>' && s[3] == '>' then 4
    else if 3 <= |s| && s[0] == '<' && s[1] != '>' && s[2] == '>' then 3
    else 0
  }

  /**
   * MatchLength finds a match exactly when some prefix of s is in the
   * pattern's language, and then that prefix is the match (at most one
   * prefix of any string can be a short tag).
   */
  lemma MatchLengthIsTagPrefix(s: string)
    ensures MatchLength(s) > 0 ==> IsShortTag(s[..MatchLength(s)])
    ensures forall k :: 0 <= k <= |s| && IsShortTag(s[..k]) ==> MatchLength(s) == k
  {
    var n := MatchLength(s);
    if n == 4 {
      assert s[..4] == TagText(true, s[2]);
    } else if n == 3 {
      assert s[..3] == TagText(false, s[1]);
    }
    forall k | 0 <= k <= |s| && IsShortTag(s[..k])
      ensures MatchLength(s) == k
    {
      var slash: bool, c: char :| c != '>' && s[..k] == TagText(slash, c);
      if slash {
        assert k == 4 && s[0] == '<' && s[1] == '/' && s[2] == c && s[3] == '>';
      } else {
        assert k == 3 && s[0] == '<' && s[1] == c && s[2] == '>';
      }
    }
  }

  /** The whole pass: drop each match, keep every byte the scan steps over. */
  function StripShortTags(s: string): (r: string)
    ensures |r| <= |s|
    decreases |s|
  {
    if s == [] then []
    else
      var n := MatchLength(s);
      if n > 0 then StripShortTags(s[n..]) else [s[0]] + StripShortTags(s[1..])
  }

  /** A short tag at the scan position is deleted. */
  lemma StripDropsTag(t: string, s: string)
    requires IsShortTag(t)
    ensures StripShortTags(t + s) == StripShortTags(s)
  {
    var ts := t + s;
    assert ts[..|t|] == t;
    MatchLengthIsTagPrefix(ts);
    assert ts[|t|..] == s;
  }

  /** A byte at which no short tag starts is kept, and the scan moves on by one. */
  lemma StripKeepsByte(s: string)
    requires s != []
    requires forall k :: 0 <= k <= |s| ==> !IsShortTag(s[..k])
    ensures StripShortTags(s) == [s[0]] + StripShortTags(s[1..])
  {
    MatchLengthIsTagPrefix(s);
  }

  /** Bytes before the first "<" are kept as they are. */
  lemma {:induction false} StripKeepsPlainPrefix(p: string, s: string)
    requires '<' !in p
    ensures StripShortTags(p + s) == p + StripShortTags(s)
    decreases |p|
  {
    if p != [] {
      var ps := p + s;
      assert ps[0] == p[0] && p[0] != '<';
      assert MatchLength(ps) == 0;
      assert ps[1..] == p[1..] + s;
      assert p == [p[0]] + p[1..];
      assert '<' !in p[1..] by {
        assert forall i :: 0 <= i < |p[1..]| ==> p[1..][i] == p[i + 1];
      }
      StripKeepsPlainPrefix(p[1..], s);
    } else {
      assert p + s == s;
    }
  }

  /** Without a "<" there is nothing to match: the string comes back unchanged. */
  lemma StripWithoutAngle(s: string)
    requires '<' !in s
    ensures StripShortTags(s) == s
  {
    StripKeepsPlainPrefix(s, "");
    assert s + "" == s;
  }

  /** rest begins with the ", " separator. */
  predicate StartsWithSeparator(rest: string) {
    2 <= |rest| && rest[0] == ',' && rest[1] == ' '
  }

  /** Anchored at a non-empty string, a match never reaches into a separator that follows it. */
  lemma MatchLengthBeforeSeparator(a: string, rest: string)
    requires a != [] && StartsWithSeparator(rest)
    ensures MatchLength(a + rest) == MatchLength(a)
  {
    var s := a + rest;
    assert forall i :: 0 <= i < |a| ==> s[i] == a[i];
    assert s[|a|] == ',' && s[|a| + 1] == ' ';
  }

  /** Dropping a prefix of a from a + b. */
  lemma DropAppend(a: string, b: string, n: nat)
    requires n <= |a|
    ensures (a + b)[n..] == a[n..] + b
  {
  }

  /** The step over a match at the start of a, once the scan of the remainder reaches the separator. */
  lemma StripTagBeforeSeparator(a: string, rest: string)
    requires a != [] && StartsWithSeparator(rest) && MatchLength(a) > 0
    requires StripShortTags(a[MatchLength(a)..] + rest)
          == StripShortTags(a[MatchLength(a)..]) + StripShortTags(rest)
    ensures StripShortTags(a + rest) == StripShortTags(a) + StripShortTags(rest)
  {
    MatchLengthBeforeSeparator(a, rest);
    DropAppend(a, rest, MatchLength(a));
  }

  /** The step over a kept byte at the start of a, once the scan of the remainder reaches the separator. */
  lemma StripByteBeforeSeparator(a: string, rest: string)
    requires a != [] && StartsWithSeparator(rest) && MatchLength(a) == 0
    requires StripShortTags(a[1..] + rest) == StripShortTags(a[1..]) + StripShortTags(rest)
    ensures StripShortTags(a + rest) == StripShortTags(a) + StripShortTags(rest)
  {
    MatchLengthBeforeSeparator(a, rest);
    DropAppend(a, rest, 1);
    assert (a + rest)[0] == a[0];
    AppendAssoc([a[0]], StripShortTags(a[1..]), StripShortTags(rest));
  }

  /** Concatenation is associative. */
  lemma AppendAssoc(x: string, y: string, z: string)
    ensures x + (y + z) == (x + y) + z
  {
  }

  /** The scan of a reaches the separator that follows a unchanged. */
  lemma {:induction false} StripBeforeSeparator(a: string, rest: string)
    requires StartsWithSeparator(rest)
    ensures StripShortTags(a + rest) == StripShortTags(a) + StripShortTags(rest)
    decreases |a|
  {
    if a == [] {
      assert a + rest == rest;
    } else if MatchLength(a) > 0 {
      StripBeforeSeparator(a[MatchLength(a)..], rest);
      StripTagBeforeSeparator(a, rest);
    } else {
      StripBeforeSeparator(a[1..], rest);
      StripByteBeforeSeparator(a, rest);
    }
  }

  /** Stripping never works across a separator. */
  lemma StripAcrossSeparator(a: string, b: string)
    ensures StripShortTags(a + Separator + b) == StripShortTags(a) + Separator + StripShortTags(b)
  {
    var rest := Separator + b;
    AppendAssoc(a, Separator, b);
    StripBeforeSeparator(a, rest);
    StripKeepsPlainPrefix(Separator, b);
    AppendAssoc(StripShortTags(a), Separator, StripShortTags(b));
  }

  /** Each part stripped on its own. */
  function StripEach(parts: seq<string>): seq<string> {
    seq(|parts|, i requires 0 <= i < |parts| => StripShortTags(parts[i]))
  }

  /**
   * One pass over the joined titles equals joining the titles stripped one
   * by one: no match can contain a byte of the ", " separator.
   */
  lemma {:induction false} StripJoinIsJoinStripped(parts: seq<string>)
    ensures StripShortTags(Join(Separator, parts)) == Join(Separator, StripEach(parts))
    decreases |parts|
  {
    if |parts| > 1 {
      StripAcrossSeparator(parts[0], Join(Separator, parts[1..]));
      StripJoinIsJoinStripped(parts[1..]);
      assert StripEach(parts)[1..] == StripEach(parts[1..]);
    }
  }

  /** Single-byte opening and closing tags go. */
  lemma StripRemovesShortTags()
    ensures StripShortTags("<b>Admins</b>") == "Admins"
  {
    var s := "<b>Admins</b>";
    var open, close, word := TagText(false, 'b'), TagText(true, 'b'), "Admins";
    assert IsShortTag(open) && IsShortTag(close);
    assert s == open + (word + close);
    assert close + [] == close;
    calc {
      StripShortTags(s);
      StripShortTags(open + (word + close));
      { StripDropsTag(open, word + close); }
      StripShortTags(word + close);
      { StripKeepsPlainPrefix(word, close); }
      word + StripShortTags(close);
      { StripDropsTag(close, []); }
      word;
    }
  }

  /** The "/" itself can be the one byte of content, with or without the optional "/". */
  lemma StripRemovesSlashTags()
    ensures StripShortTags("</>x<//>") == "x"
  {
    var s := "</>x<//>";
    var bare, doubled, word := TagText(false, '/'), TagText(true, '/'), "x";
    assert IsShortTag(bare) && IsShortTag(doubled);
    assert s == bare + (word + doubled);
    assert doubled + [] == doubled;
    calc {
      StripShortTags(s);
      StripShortTags(bare + (word + doubled));
      { StripDropsTag(bare, word + doubled); }
      StripShortTags(word + doubled);
      { StripKeepsPlainPrefix(word, doubled); }
      word + StripShortTags(doubled);
      { StripDropsTag(doubled, []); }
      word;
    }
  }

  /** A tag with more than one byte of content survives. */
  lemma StripKeepsLongTags()
    ensures StripShortTags("<span>") == "<span>"
  {
    var s := "<span>";
    assert MatchLength(s) == 0;
    assert s[1..] == "span>";
    StripWithoutAngle(s[1..]);
  }

  /** One pass can leave a tag behind: removing "<b>" joins "<" and "i>". */
  lemma StripIsSinglePass()
    ensures StripShortTags("<<b>i>") == "<i>"
    ensures StripShortTags(StripShortTags("<<b>i>")) == ""
  {
    var s := "<<b>i>";
    var bold, italic, tail := TagText(false, 'b'), TagText(false, 'i'), s[4..];
    assert IsShortTag(bold) && IsShortTag(italic);
    assert MatchLength(s) == 0;
    assert s[1..] == bold + tail;
    assert italic + [] == italic;
    calc {
      StripShortTags(s);
      [s[0]] + StripShortTags(s[1..]);
      { StripDropsTag(bold, tail); }
      [s[0]] + StripShortTags(tail);
      { StripWithoutAngle(tail); }
      [s[0]] + tail;
      italic;
    }
    StripDropsTag(italic, []);
  }
}
