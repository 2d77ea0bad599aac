/**
 * Product ids are PostgreSQL `uuid` values. A request names a row by the text of
 * its path, and the database reads that text with the `uuid` input syntax: an
 * optional pair of braces around 32 hexadecimal digits in either case, taken in
 * groups of four, where any group but the last may be followed by a hyphen. The
 * id the database hands out is the canonical spelling `8-4-4-4-12` in lower case.
 */
module Uuid {
  import opened Options

  predicate IsHexDigit(c: char) {
    '0' <= c <= '9' || 'a' <= c <= 'f' || 'A' <= c <= 'F'
  }

  predicate IsLowerHexDigit(c: char) {
    '0' <= c <= '9' || 'a' <= c <= 'f'
  }

  predicate AllLowerHex(s: string) {
    forall i | 0 <= i < |s| :: IsLowerHexDigit(s[i])
  }

  /** A hexadecimal digit as the database stores it. */
  function LowerHexDigit(c: char): (d: char)
    requires IsHexDigit(c)
    ensures IsLowerHexDigit(d)
    ensures IsLowerHexDigit(c) ==> d == c
    ensures 'A' <= c <= 'F' ==> d as int == c as int + 32
  {
    if 'A' <= c <= 'F' then (c as int + 32) as char else c
  }

  /**
   * Reads `groups` groups of four hexadecimal digits, each but the last optionally
   * followed by a hyphen; yields the digits in lower case and the text after them.
   */
  function HexGroups(s: string, groups: nat): (r: Option<(string, string)>)
    ensures r.Some? ==> |r.value.0| == 4 * groups && AllLowerHex(r.value.0)
    decreases groups
  {
    if groups == 0 then Some(("", s))
    else if |s| < 4 || !IsHexDigit(s[0]) || !IsHexDigit(s[1]) || !IsHexDigit(s[2]) || !IsHexDigit(s[3]) then None
    else
      match HexGroups(AfterGroup(s, groups), groups - 1)
      case None => None
      case Some(parsed) => Some((GroupDigits(s) + parsed.0, parsed.1))
  }

  /** The first four digits of `s` in lower case. */
  function GroupDigits(s: string): (g: string)
    requires |s| >= 4 && IsHexDigit(s[0]) && IsHexDigit(s[1]) && IsHexDigit(s[2]) && IsHexDigit(s[3])
    ensures |g| == 4 && AllLowerHex(g)
    ensures AllLowerHex(s[..4]) ==> g == s[..4]
  {
    [LowerHexDigit(s[0]), LowerHexDigit(s[1]), LowerHexDigit(s[2]), LowerHexDigit(s[3])]
  }

  /** The text after a group: a hyphen that follows it is skipped unless it is the last group. */
  function AfterGroup(s: string, groups: nat): string
    requires |s| >= 4
  {
    if groups > 1 && |s| > 4 && s[4] == '-' then s[5..] else s[4..]
  }

  /** The canonical spelling puts a hyphen after the second to the fifth of the eight groups. */
  predicate HyphenAfter(groups: nat) {
    4 <= groups <= 7
  }

  /** The canonical spelling of the last `groups` groups of the digits `d`. */
  function GroupsText(d: string, groups: nat): (s: string)
    requires |d| == 4 * groups
    ensures |s| == 4 * groups + (if groups >= 7 then 4 else if groups >= 4 then groups - 3 else 0)
    ensures groups > 0 ==> s[0] == d[0]
    ensures AllLowerHex(d) ==> forall i | 0 <= i < |s| :: IsLowerHexDigit(s[i]) || s[i] == '-'
    decreases groups
  {
    if groups == 0 then ""
    else
      var rest := GroupsText(d[4..], groups - 1);
      var s := d[..4] + (if HyphenAfter(groups) then "-" else "") + rest;
      assert AllLowerHex(d) ==> forall i | 0 <= i < |s| :: IsLowerHexDigit(s[i]) || s[i] == '-' by {
        if AllLowerHex(d) {
          forall i | 0 <= i < |s|
            ensures IsLowerHexDigit(s[i]) || s[i] == '-'
          {
            var h := if HyphenAfter(groups) then 1 else 0;
            if i < 4 {
              assert s[i] == d[i];
            } else if i >= 4 + h {
              assert s[i] == rest[i - 4 - h];
            }
          }
        }
      }
      s
  }

  /** The spelling the database prints for the 32 digits `d`. */
  function Canonical(d: string): (s: string)
    requires |d| == 32
  {
    GroupsText(d, 8)
  }

  /**
   * The id a request's text names, or `None` when the database refuses the text
   * as a `uuid` (an error, not a missing row).
   */
  function UuidOf(raw: string): (u: Option<string>)
    ensures u.Some? ==> |u.value| == 36 && IsLowerHexDigit(u.value[0])
    ensures u.Some? ==> forall i | 0 <= i < |u.value| :: IsLowerHexDigit(u.value[i]) || u.value[i] == '-'
  {
    var braced := |raw| > 0 && raw[0] == '{';
    var body := if braced then raw[1..] else raw;
    match HexGroups(body, 8)
    case None => None
    case Some(parsed) =>
      if parsed.1 == (if braced then "}" else "") then Some(Canonical(parsed.0)) else None
  }

  /** Reading a canonical spelling, followed by any text, gives its digits back and stops before that text. */
  lemma {:induction false} ReadCanonicalGroups(d: string, groups: nat, tail: string)
    requires |d| == 4 * groups && AllLowerHex(d)
    ensures HexGroups(GroupsText(d, groups) + tail, groups) == Some((d, tail))
    decreases groups
  {
    if groups > 0 {
      var s := GroupsText(d, groups) + tail;
      var rest := GroupsText(d[4..], groups - 1) + tail;
      CanonicalGroupSplits(d, groups, tail);
      ReadCanonicalGroups(d[4..], groups - 1, tail);
      assert HexGroups(rest, groups - 1) == Some((d[4..], tail));
      assert s[..4][0] == s[0] && s[..4][1] == s[1] && s[..4][2] == s[2] && s[..4][3] == s[3];
      assert IsHexDigit(s[0]) && IsHexDigit(s[1]) && IsHexDigit(s[2]) && IsHexDigit(s[3]);
      assert GroupDigits(s) == d[..4];
      assert d == d[..4] + d[4..];
    } else {
      assert GroupsText(d, groups) + tail == tail;
    }
  }

  /** One step of the above: the first group of a canonical spelling and what the reader leaves after it. */
  lemma CanonicalGroupSplits(d: string, groups: nat, tail: string)
    requires groups > 0 && |d| == 4 * groups && AllLowerHex(d)
    ensures var s := GroupsText(d, groups) + tail;
      && |s| >= 4 && s[..4] == d[..4] && AllLowerHex(s[..4])
      && AfterGroup(s, groups) == GroupsText(d[4..], groups - 1) + tail
  {
    var restText := GroupsText(d[4..], groups - 1);
    var hyphen := if HyphenAfter(groups) then "-" else "";
    var s := GroupsText(d, groups) + tail;
    assert s == d[..4] + hyphen + (restText + tail);
    assert s[..4] == d[..4];
    if !HyphenAfter(groups) && groups > 1 {
      assert s[4] == restText[0] == d[4];
    }
  }

  /** The canonical spelling of an id reads back as that id: the database's spelling is a fixed point. */
  lemma CanonicalSpellingReadsBack(raw: string)
    requires UuidOf(raw).Some?
    ensures UuidOf(UuidOf(raw).value) == UuidOf(raw)
  {
    var braced := |raw| > 0 && raw[0] == '{';
    var body := if braced then raw[1..] else raw;
    var d := HexGroups(body, 8).value.0;
    var c := Canonical(d);
    ReadCanonicalGroups(d, 8, "");
    assert c + "" == c;
    ReadPlain(c);
  }

  /** The same id in braces is another spelling of it. */
  lemma BracedSpellingIsAlias(id: string)
    requires UuidOf(id) == Some(id)
    ensures UuidOf("{" + id + "}") == Some(id)
    ensures "{" + id + "}" != id
  {
    assert id[0] != '{';
    ReadPlain(id);
    var d := HexGroups(id, 8).value.0;
    BracedCanonical(d);
  }

  /** The canonical spelling of the digits `d`, in braces, reads as that spelling. */
  lemma BracedCanonical(d: string)
    requires |d| == 32 && AllLowerHex(d)
    ensures UuidOf("{" + Canonical(d) + "}") == Some(Canonical(d))
  {
    var c := Canonical(d);
    ReadCanonicalGroups(d, 8, "}");
    assert HexGroups(c + "}", 8) == Some((d, "}"));
    ReadBraced(c + "}");
    Enclosed(c);
  }

  /** Braces around a text: the opening brace, then the text and its closing brace. */
  lemma Enclosed(c: string)
    ensures "{" + c + "}" == "{" + (c + "}")
  {
  }

  /** How a text that does not open with a brace is read: its digits must end it. */
  lemma ReadPlain(t: string)
    requires |t| == 0 || t[0] != '{'
    ensures UuidOf(t) == match HexGroups(t, 8)
      case None => None
      case Some(parsed) => if parsed.1 == "" then Some(Canonical(parsed.0)) else None
  {
  }

  /** How a text that opens with a brace is read: its body must be followed by the closing brace alone. */
  lemma ReadBraced(t: string)
    ensures UuidOf("{" + t) == match HexGroups(t, 8)
      case None => None
      case Some(parsed) => if parsed.1 == "}" then Some(Canonical(parsed.0)) else None
  {
    var raw := "{" + t;
    assert |raw| > 0 && raw[0] == '{' && raw[1..] == t;
  }
}
