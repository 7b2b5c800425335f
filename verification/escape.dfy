/** The content escaping of `unmarchalStr` in catnostk.go: nine
    `strings.Replace` passes, each replacing every occurrence of one
    character. The passes run in a fixed order and the backslash pass
    comes after the control-character passes, so the backslashes those
    passes insert are doubled. */
module Escape {
  import opened Results

  const Backspace: char := '\U{0008}'
  const FormFeed: char := '\U{000C}'

  /** `strings.Replace(s, string(c), rep, -1)`: every occurrence of the
      character `c`, left to right, replaced by `rep`. */
  function ReplaceAll(s: string, c: char, rep: string): (r: string)
    ensures c !in s ==> r == s
    ensures c !in rep ==> c !in r
    ensures forall x :: x in r && x !in rep ==> x in s && x != c
  {
    if |s| == 0 then ""
    else (if s[0] == c then rep else [s[0]]) + ReplaceAll(s[1..], c, rep)
  }

  /** Each pass acts on the two halves of a string independently. */
  lemma {:induction false} ReplaceAllConcat(a: string, b: string, c: char, rep: string)
    ensures ReplaceAll(a + b, c, rep) == ReplaceAll(a, c, rep) + ReplaceAll(b, c, rep)
  {
    if |a| > 0 {
      assert (a + b)[0] == a[0];
      assert (a + b)[1..] == a[1..] + b;
      ReplaceAllConcat(a[1..], b, c, rep);
    } else {
      assert a + b == b;
    }
  }

  /** The first six passes: a double quote and the five control
      characters newline, backspace, form feed, carriage return and tab
      become a backslash and a letter (or the quote). */
  function ControlPasses(s: string): string {
    var s1 := ReplaceAll(s, '"', "\\\"");
    var s2 := ReplaceAll(s1, '\n', "\\n");
    var s3 := ReplaceAll(s2, Backspace, "\\b");
    var s4 := ReplaceAll(s3, FormFeed, "\\f");
    var s5 := ReplaceAll(s4, '\r', "\\r");
    ReplaceAll(s5, '\t', "\\t")
  }

  /** The last three passes: backslash to two backslashes, slash to
      backslash-slash, and the quote pass again. */
  function LastPasses(s6: string): string {
    var s7 := ReplaceAll(s6, '\\', "\\\\");
    var s8 := ReplaceAll(s7, '/', "\\/");
    ReplaceAll(s8, '"', "\\\"")
  }

  /** The whole chain of nine passes. */
  function EscapeContent(s: string): string {
    LastPasses(ControlPasses(s))
  }

  /** The five control characters the chain rewrites to a letter escape. */
  predicate IsRawControl(c: char) {
    c == '\n' || c == Backspace || c == FormFeed || c == '\r' || c == '\t'
  }

  /** The characters some pass rewrites. */
  predicate IsSpecial(c: char) {
    c == '"' || IsRawControl(c) || c == '\\' || c == '/'
  }

  /** The letter that names a control character in its escape. */
  function ControlLetter(c: char): char
    requires IsRawControl(c)
  {
    if c == '\n' then 'n' else if c == Backspace then 'b' else if c == FormFeed then 'f'
    else if c == '\r' then 'r' else 't'
  }

  /** What the whole chain makes of one character, worked out by hand:
      a quote gains a backslash in the first pass, that backslash is
      doubled, and the last pass escapes the quote again. */
  function EscapeChar(c: char): string {
    if c == '"' then "\\\\\\\""
    else if IsRawControl(c) then
      "\\\\" + [ControlLetter(c)]
    else if c == '\\' then "\\\\"
    else if c == '/' then "\\/"
    else [c]
  }

  /** What the first six passes make of one character. */
  function ControlChar(c: char): string {
    if c == '"' then "\\\""
    else if IsRawControl(c) then
      "\\" + [ControlLetter(c)]
    else [c]
  }

  /** Escaping character by character, as a reference for the chain. */
  function EscapeEach(s: string): string {
    if |s| == 0 then "" else EscapeChar(s[0]) + EscapeEach(s[1..])
  }

  function ControlEach(s: string): string {
    if |s| == 0 then "" else ControlChar(s[0]) + ControlEach(s[1..])
  }

  lemma ControlPassesConcat(a: string, b: string)
    ensures ControlPasses(a + b) == ControlPasses(a) + ControlPasses(b)
  {
    var a1, b1 := ReplaceAll(a, '"', "\\\""), ReplaceAll(b, '"', "\\\"");
    ReplaceAllConcat(a, b, '"', "\\\"");
    var a2, b2 := ReplaceAll(a1, '\n', "\\n"), ReplaceAll(b1, '\n', "\\n");
    ReplaceAllConcat(a1, b1, '\n', "\\n");
    var a3, b3 := ReplaceAll(a2, Backspace, "\\b"), ReplaceAll(b2, Backspace, "\\b");
    ReplaceAllConcat(a2, b2, Backspace, "\\b");
    var a4, b4 := ReplaceAll(a3, FormFeed, "\\f"), ReplaceAll(b3, FormFeed, "\\f");
    ReplaceAllConcat(a3, b3, FormFeed, "\\f");
    var a5, b5 := ReplaceAll(a4, '\r', "\\r"), ReplaceAll(b4, '\r', "\\r");
    ReplaceAllConcat(a4, b4, '\r', "\\r");
    ReplaceAllConcat(a5, b5, '\t', "\\t");
  }

  lemma LastPassesConcat(a6: string, b6: string)
    ensures LastPasses(a6 + b6) == LastPasses(a6) + LastPasses(b6)
  {
    ReplaceAllConcat(a6, b6, '\\', "\\\\");
    var a7, b7 := ReplaceAll(a6, '\\', "\\\\"), ReplaceAll(b6, '\\', "\\\\");
    ReplaceAllConcat(a7, b7, '/', "\\/");
    var a8, b8 := ReplaceAll(a7, '/', "\\/"), ReplaceAll(b7, '/', "\\/");
    ReplaceAllConcat(a8, b8, '"', "\\\"");
  }

  lemma EscapeContentConcat(a: string, b: string)
    ensures EscapeContent(a + b) == EscapeContent(a) + EscapeContent(b)
  {
    ControlPassesConcat(a, b);
    LastPassesConcat(ControlPasses(a), ControlPasses(b));
  }

  lemma ControlPassesOneChar(c: char)
    ensures ControlPasses([c]) == ControlChar(c)
  {
  }

  lemma ReplaceAllOne(x: char, c: char, rep: string)
    ensures ReplaceAll([x], c, rep) == if x == c then rep else [x]
  {
    assert [x][1..] == [];
  }

  /** The last three passes on a backslash followed by one character. */
  lemma LastPassesAfterBackslash(y: char)
    requires y != '\\'
    ensures var s7 := ReplaceAll(['\\', y], '\\', "\\\\");
            var s8 := ReplaceAll(s7, '/', "\\/");
            ReplaceAll(s8, '"', "\\\"") == "\\\\" + (if y == '"' then "\\\"" else if y == '/' then "\\/" else [y])
  {
    assert ['\\', y] == ['\\'] + [y];
    ReplaceAllConcat(['\\'], [y], '\\', "\\\\");
    ReplaceAllOne('\\', '\\', "\\\\");
    ReplaceAllOne(y, '\\', "\\\\");
    var s7 := "\\\\" + [y];
    ReplaceAllConcat("\\\\", [y], '/', "\\/");
    ReplaceAllOne(y, '/', "\\/");
    var tail := if y == '/' then "\\/" else [y];
    ReplaceAllConcat("\\\\", tail, '"', "\\\"");
    if y == '"' {
      ReplaceAllOne(y, '"', "\\\"");
    }
  }

  lemma EscapeContentOneChar(c: char)
    ensures EscapeContent([c]) == EscapeChar(c)
  {
    ControlPassesOneChar(c);
    if c == '"' {
      QuoteThroughLastPasses();
    } else if IsRawControl(c) {
      ControlThroughLastPasses(c);
    } else {
      LastPassesOther(c);
    }
  }

  lemma QuoteThroughLastPasses()
    ensures LastPasses(ControlChar('"')) == EscapeChar('"')
  {
    assert ControlChar('"') == ['\\', '"'];
    LastPassesAfterBackslash('"');
  }

  lemma ControlThroughLastPasses(c: char)
    requires IsRawControl(c)
    ensures LastPasses(ControlChar(c)) == EscapeChar(c)
  {
    assert ControlChar(c) == ['\\', ControlLetter(c)];
    LastPassesAfterBackslash(ControlLetter(c));
  }

  lemma LastPassesOther(c: char)
    requires !(c == '"' || IsRawControl(c))
    ensures LastPasses([c]) == EscapeChar(c)
  {
    ReplaceAllOne(c, '\\', "\\\\");
    if c == '\\' {
      assert ReplaceAll("\\\\", '/', "\\/") == "\\\\";
    } else {
      ReplaceAllOne(c, '/', "\\/");
      if c == '/' {
        assert ReplaceAll("\\/", '"', "\\\"") == "\\/";
      } else {
        ReplaceAllOne(c, '"', "\\\"");
      }
    }
  }

  /** The nine passes together escape each character on its own. */
  lemma {:induction false} EscapeIsPerCharacter(s: string)
    ensures EscapeContent(s) == EscapeEach(s)
    ensures ControlPasses(s) == ControlEach(s)
  {
    if |s| > 0 {
      assert s == [s[0]] + s[1..];
      EscapeContentConcat([s[0]], s[1..]);
      ControlPassesConcat([s[0]], s[1..]);
      EscapeContentOneChar(s[0]);
      ControlPassesOneChar(s[0]);
      EscapeIsPerCharacter(s[1..]);
    }
  }

  /** Text free of every rewritten character passes through unchanged;
      in particular the empty content stays empty. */
  lemma {:induction false} EscapeLeavesPlainText(s: string)
    requires forall i :: 0 <= i < |s| ==> !IsSpecial(s[i])
    ensures EscapeContent(s) == s
  {
    EscapeIsPerCharacter(s);
    PlainEachUnchanged(s);
  }

  lemma {:induction false} PlainEachUnchanged(s: string)
    requires forall i :: 0 <= i < |s| ==> !IsSpecial(s[i])
    ensures EscapeEach(s) == s
  {
    if |s| > 0 {
      PlainEachUnchanged(s[1..]);
      assert s == [s[0]] + s[1..];
    }
  }

  /** Every double quote and every slash sits right after a backslash. */
  predicate QuotesAndSlashesEscaped(r: string) {
    forall i :: 0 <= i < |r| && (r[i] == '"' || r[i] == '/') ==> 0 < i && r[i - 1] == '\\'
  }

  lemma EscapedConcat(a: string, b: string)
    requires QuotesAndSlashesEscaped(a) && QuotesAndSlashesEscaped(b)
    requires |b| == 0 || (b[0] != '"' && b[0] != '/')
    ensures QuotesAndSlashesEscaped(a + b)
  {
    var r := a + b;
    forall i | 0 <= i < |r| && (r[i] == '"' || r[i] == '/')
      ensures 0 < i && r[i - 1] == '\\'
    {
      if i >= |a| {
        assert r[i] == b[i - |a|];
        if i - |a| > 0 {
          assert r[i - 1] == b[i - |a| - 1];
        }
      }
    }
  }

  lemma {:induction false} EscapeEachShape(s: string)
    ensures forall i :: 0 <= i < |EscapeEach(s)| ==> !IsRawControl(EscapeEach(s)[i])
    ensures QuotesAndSlashesEscaped(EscapeEach(s))
    ensures |EscapeEach(s)| == 0 || (EscapeEach(s)[0] != '"' && EscapeEach(s)[0] != '/')
  {
    if |s| > 0 {
      EscapeEachShape(s[1..]);
      var head, tail := EscapeChar(s[0]), EscapeEach(s[1..]);
      assert QuotesAndSlashesEscaped(head);
      EscapedConcat(head, tail);
      assert EscapeEach(s) == head + tail;
      forall i | 0 <= i < |head + tail|
        ensures !IsRawControl((head + tail)[i])
      {
        if i >= |head| {
          assert (head + tail)[i] == tail[i - |head|];
        }
      }
    }
  }

  /** The escaped content holds no raw newline, backspace, form feed,
      carriage return or tab, and every double quote and slash in it is
      immediately preceded by a backslash. */
  lemma EscapeOutputShape(s: string)
    ensures forall i :: 0 <= i < |EscapeContent(s)| ==> !IsRawControl(EscapeContent(s)[i])
    ensures QuotesAndSlashesEscaped(EscapeContent(s))
  {
    EscapeIsPerCharacter(s);
    EscapeEachShape(s);
  }

  /** A lone double quote becomes the four characters `\\\"`. */
  lemma EscapeLoneQuote()
    ensures EscapeContent("\"") == "\\\\\\\""
  {
    EscapeContentOneChar('"');
  }

  /** A newline becomes the three characters `\\n`. */
  lemma EscapeLoneNewline()
    ensures EscapeContent("\n") == "\\\\n"
  {
    EscapeContentOneChar('\n');
  }

  /** Escaping never shortens, and lengthens every text that holds a
      rewritten character. */
  lemma {:induction false} EscapeEachGrows(s: string)
    ensures |EscapeEach(s)| >= |s|
    ensures (exists i :: 0 <= i < |s| && IsSpecial(s[i])) ==> |EscapeEach(s)| > |s|
  {
    if |s| > 0 {
      EscapeEachGrows(s[1..]);
      if exists i :: 0 <= i < |s| && IsSpecial(s[i]) {
        var i :| 0 <= i < |s| && IsSpecial(s[i]);
        if i > 0 {
          assert IsSpecial(s[1..][i - 1]);
        }
      }
    }
  }

  /** A rewritten character always leaves a backslash in the output. */
  lemma {:induction false} EscapeEachKeepsBackslash(s: string, i: int)
    requires 0 <= i < |s| && IsSpecial(s[i])
    ensures '\\' in EscapeEach(s)
  {
    if i == 0 {
      assert EscapeEach(s)[0] == '\\';
    } else {
      EscapeEachKeepsBackslash(s[1..], i - 1);
    }
  }

  /** The chain's fixed points are exactly the texts without a rewritten
      character; on any other text it is not idempotent, since escaping
      the output again lengthens it once more. */
  lemma EscapeFixedPoints(s: string)
    ensures EscapeContent(s) == s <==> forall i :: 0 <= i < |s| ==> !IsSpecial(s[i])
    ensures (exists i :: 0 <= i < |s| && IsSpecial(s[i])) ==>
      EscapeContent(EscapeContent(s)) != EscapeContent(s)
  {
    EscapeIsPerCharacter(s);
    EscapeEachGrows(s);
    if forall i :: 0 <= i < |s| ==> !IsSpecial(s[i]) {
      PlainEachUnchanged(s);
    } else {
      var i :| 0 <= i < |s| && IsSpecial(s[i]);
      var e := EscapeContent(s);
      EscapeEachKeepsBackslash(s, i);
      var k :| 0 <= k < |e| && e[k] == '\\';
      assert IsSpecial(e[k]);
      EscapeIsPerCharacter(e);
      EscapeEachGrows(e);
    }
  }

  /** The eight two-character escapes of section 7 of RFC 8259 other than
      `\uXXXX`. */
  predicate IsShortEscape(c: char) {
    c == '"' || c == '\\' || c == '/' || c == 'b' || c == 'f' || c == 'n' || c == 'r' || c == 't'
  }

  function ShortEscapeValue(c: char): char
    requires IsShortEscape(c)
  {
    if c == 'b' then Backspace else if c == 'f' then FormFeed else if c == 'n' then '\n'
    else if c == 'r' then '\r' else if c == 't' then '\t' else c
  }

  /** How a JSON reader decodes the body of a string literal (section 7
      of RFC 8259): a raw quote or a raw character below U+0020 is an
      error, and a backslash must start a short escape. `\u` escapes are
      not read here; the escaper never emits one. */
  function JsonUnescape(r: string): Option<string>
    decreases |r|
  {
    if |r| == 0 then Some("")
    else if r[0] == '\\' then
      if |r| >= 2 && IsShortEscape(r[1]) then
        match JsonUnescape(r[2..])
        case None => None
        case Some(t) => Some([ShortEscapeValue(r[1])] + t)
      else None
    else if r[0] == '"' || r[0] < ' ' then None
    else
      match JsonUnescape(r[1..])
      case None => None
      case Some(t) => Some([r[0]] + t)
  }

  /** Characters a JSON reader accepts after escaping: anything at or
      above U+0020 and the five control characters the chain rewrites. */
  predicate Readable(c: char) {
    c >= ' ' || IsRawControl(c)
  }

  lemma ReadOneEscaped(c: char, rest: string)
    requires Readable(c)
    ensures JsonUnescape(EscapeChar(c) + rest) ==
      match JsonUnescape(rest)
      case None => None
      case Some(t) => Some(ControlChar(c) + t)
  {
    var r := EscapeChar(c) + rest;
    if c == '"' {
      assert r[0] == '\\' && r[1] == '\\';
      assert r[2..] == "\\\"" + rest;
      assert r[2..][2..] == rest;
      match JsonUnescape(rest)
      case None =>
      case Some(t) =>
        assert JsonUnescape(r[2..]) == Some(['"'] + t);
        assert ['\\'] + (['"'] + t) == ControlChar(c) + t;
    } else if IsRawControl(c) {
      var letter := ControlLetter(c);
      assert r[0] == '\\' && r[1] == '\\';
      assert r[2..] == [letter] + rest;
      assert r[2..][1..] == rest;
      match JsonUnescape(rest)
      case None =>
      case Some(t) =>
        assert JsonUnescape(r[2..]) == Some([letter] + t);
        assert ['\\'] + ([letter] + t) == ControlChar(c) + t;
    } else if c == '\\' || c == '/' {
      assert r[2..] == rest;
    } else {
      assert r[1..] == rest;
    }
  }

  /** What a JSON reader gets back from escaped content is the content
      after only the first six passes: the backslash and slash passes are
      undone by the reader, but quotes and control characters come back as
      a backslash and a letter instead of themselves. */
  lemma {:induction false} JsonReadsControlPasses(s: string)
    requires forall i :: 0 <= i < |s| ==> Readable(s[i])
    ensures JsonUnescape(EscapeContent(s)) == Some(ControlPasses(s))
  {
    EscapeIsPerCharacter(s);
    ReadEach(s);
  }

  lemma {:induction false} ReadEach(s: string)
    requires forall i :: 0 <= i < |s| ==> Readable(s[i])
    ensures JsonUnescape(EscapeEach(s)) == Some(ControlEach(s))
  {
    if |s| > 0 {
      ReadEach(s[1..]);
      ReadOneEscaped(s[0], EscapeEach(s[1..]));
    }
  }

  /** A control character the chain does not rewrite, anywhere in the
      content, is left raw, and the escaped content is then no longer a
      readable JSON string body. */
  lemma UnescapedControlUnreadable(s: string, i: int)
    requires 0 <= i < |s| && s[i] < ' ' && !IsRawControl(s[i])
    ensures JsonUnescape(EscapeContent(s)) == None
  {
    EscapeIsPerCharacter(s);
    UnreadableEach(s, i);
  }

  lemma {:induction false} UnreadableEach(s: string, i: int)
    requires 0 <= i < |s| && s[i] < ' ' && !IsRawControl(s[i])
    ensures JsonUnescape(EscapeEach(s)) == None
  {
    if i == 0 || !Readable(s[0]) {
      assert EscapeEach(s) == [s[0]] + EscapeEach(s[1..]);
    } else {
      UnreadableEach(s[1..], i - 1);
      ReadOneEscaped(s[0], EscapeEach(s[1..]));
    }
  }
}
