/**
 * The escaping applied to the free-form parts of an event descriptor
 * (scheduleLib/__init__.py, encodeSafeEventDSC and decodeSafeEventDSC), and the
 * Python string primitives it is built from: `str.replace` and `str.split`.
 */
module DescriptorCodec {

  /**
   * Python's `s.replace(pat, rep)` for a non-empty `pat`: scan from the left,
   * replace each occurrence of `pat`, and resume the scan just after it, so
   * matches never overlap.
   */
  function Replace(s: string, pat: string, rep: string): string
    requires pat != []
    decreases |s|
  {
    if s == [] then []
    else if pat <= s then rep + Replace(s[|pat|..], pat, rep)
    else [s[0]] + Replace(s[1..], pat, rep)
  }

  /** Escapes a descriptor field: every `\` becomes `\\`, then every `:` becomes `\?`. */
  function Encode(text: string): (r: string)
    ensures ':' !in r
  {
    ReplaceRemovesChar(Replace(text, "\\", "\\\\"), ':', "\\?");
    Replace(Replace(text, "\\", "\\\\"), ":", "\\?")
  }

  /** Undoes the escaping as the source does: every `\?` becomes `:`, then every `\\` becomes `\`. */
  function Decode(text: string): string
  {
    Replace(Replace(text, "\\?", ":"), "\\\\", "\\")
  }

  /** No backslash in `s` is immediately followed by `?`. */
  predicate NoEscapedColon(s: string)
  {
    forall i :: 0 <= i < |s| - 1 ==> !(s[i] == '\\' && s[i + 1] == '?')
  }

  /**
   * Python's `s.split(sep)`: the pieces between consecutive separators, so a
   * string with k separators yields k + 1 fields (possibly empty ones).
   */
  function Split(s: string, sep: char): (fields: seq<string>)
    ensures |fields| >= 1
    ensures forall k :: 0 <= k < |fields| ==> sep !in fields[k]
    ensures Join(fields, sep) == s
  {
    if s == [] then [""]
    else
      var rest := Split(s[1..], sep);
      if s[0] == sep then
        assert ([""] + rest)[1..] == rest;
        [""] + rest
      else
        var fields := [[s[0]] + rest[0]] + rest[1..];
        assert fields[1..] == rest[1..];
        fields
  }

  /** Python's `sep.join(fields)`: the inverse of `Split`. */
  function Join(fields: seq<string>, sep: char): string
    requires |fields| >= 1
  {
    if |fields| == 1 then fields[0] else fields[0] + [sep] + Join(fields[1..], sep)
  }

  // ----- facts about Replace -----

  /** Replacing a character by a string that does not contain it leaves no occurrence of it. */
  lemma {:induction false} ReplaceRemovesChar(s: string, c: char, rep: string)
    requires c !in rep
    ensures c !in Replace(s, [c], rep)
    decreases |s|
  {
    if s != [] {
      ReplaceRemovesChar(s[1..], c, rep);
    }
  }

  /** A string with no occurrence of the (one- or two-character) pattern's first character is left alone. */
  lemma {:induction false} ReplaceAbsent(s: string, pat: string, rep: string)
    requires pat != [] && pat[0] !in s
    ensures Replace(s, pat, rep) == s
    decreases |s|
  {
    if s != [] {
      assert !(pat <= s) by { assert s[0] != pat[0]; }
      ReplaceAbsent(s[1..], pat, rep);
      assert [s[0]] + s[1..] == s;
    }
  }

  /** Replacing a single character commutes with concatenation. */
  lemma {:induction false} ReplaceCharAppend(a: string, b: string, c: char, rep: string)
    ensures Replace(a + b, [c], rep) == Replace(a, [c], rep) + Replace(b, [c], rep)
    decreases |a|
  {
    if a == [] {
      assert a + b == b;
    } else {
      assert (a + b)[1..] == a[1..] + b;
      assert [c] <= a + b <==> [c] <= a;
      ReplaceCharAppend(a[1..], b, c, rep);
    }
  }

  /** With no `\?` in `s`, replacing `\?` changes nothing. */
  lemma {:induction false} ReplaceEscapedColonAbsent(s: string, rep: string)
    requires NoEscapedColon(s)
    ensures Replace(s, "\\?", rep) == s
    decreases |s|
  {
    if s != [] {
      assert !("\\?" <= s) by {
        if |s| >= 2 { assert !(s[0] == '\\' && s[1] == '?'); }
      }
      assert NoEscapedColon(s[1..]) by {
        forall i | 0 <= i < |s[1..]| - 1
          ensures !(s[1..][i] == '\\' && s[1..][i + 1] == '?')
        {
          assert s[1..][i] == s[i + 1] && s[1..][i + 1] == s[i + 2];
        }
      }
      ReplaceEscapedColonAbsent(s[1..], rep);
      assert [s[0]] + s[1..] == s;
    }
  }

  /** An occurrence of `\?` makes replacing it by `\:` change the string. */
  lemma {:induction false} ReplaceEscapedColonPresent(s: string)
    requires !NoEscapedColon(s)
    ensures Replace(s, "\\?", "\\:") != s
    decreases |s|
  {
    var i :| 0 <= i < |s| - 1 && s[i] == '\\' && s[i + 1] == '?';
    var r := Replace(s, "\\?", "\\:");
    if s[0] == '\\' && s[1] == '?' {
      assert s[..2] == "\\?";
      assert r == "\\:" + Replace(s[2..], "\\?", "\\:");
      assert r[1] == ':' != s[1];
    } else {
      assert !("\\?" <= s);
      assert s[1..][i - 1] == '\\' && s[1..][i] == '?';
      ReplaceEscapedColonPresent(s[1..]);
      assert r == [s[0]] + Replace(s[1..], "\\?", "\\:");
      assert r[1..] != s[1..];
    }
  }

  // ----- the codec, character by character -----

  /** What encoding makes of one character. */
  function EscapeChar(c: char): string
  {
    if c == '\\' then "\\\\" else if c == ':' then "\\?" else [c]
  }

  /** Encoding, one character at a time. */
  function Escaped(s: string): string
  {
    if s == [] then [] else EscapeChar(s[0]) + Escaped(s[1..])
  }

  /** An escaped string starts with `?` exactly when the original does. */
  lemma EscapedStart(s: string)
    ensures (Escaped(s) != [] && Escaped(s)[0] == '?') <==> (s != [] && s[0] == '?')
  {
  }

  /** The two chained replacements of `Encode` escape each character independently. */
  lemma {:induction false} EncodeIsEscaped(s: string)
    ensures Encode(s) == Escaped(s)
    decreases |s|
  {
    if s != [] {
      var first := if s[0] == '\\' then "\\\\" else [s[0]];
      assert Replace(s, "\\", "\\\\") == first + Replace(s[1..], "\\", "\\\\");
      ReplaceCharAppend(first, Replace(s[1..], "\\", "\\\\"), ':', "\\?");
      if s[0] == '\\' {
        ReplaceAbsent(first, ":", "\\?");
      } else if s[0] == ':' {
        assert Replace(first, ":", "\\?") == "\\?" + Replace([], ":", "\\?");
      } else {
        assert Replace(first, ":", "\\?") == [s[0]] + Replace([], ":", "\\?");
      }
      EncodeIsEscaped(s[1..]);
    }
  }

  /**
   * What the first step of decoding (`\?` to `:`) makes of an escaped string:
   * an original `\?` pair comes out as `\:`, any other `\` stays doubled.
   */
  function HalfDecoded(s: string): string
    decreases |s|
  {
    if s == [] then []
    else if |s| > 1 && s[0] == '\\' && s[1] == '?' then "\\:" + HalfDecoded(s[2..])
    else if s[0] == '\\' then "\\\\" + HalfDecoded(s[1..])
    else [s[0]] + HalfDecoded(s[1..])
  }

  /** `Replace` copies a first character that does not start a match. */
  lemma ReplaceCopiesHead(c: char, t: string, pat: string, rep: string)
    requires pat != [] && !(pat <= [c] + t)
    ensures Replace([c] + t, pat, rep) == [c] + Replace(t, pat, rep)
  {
    assert ([c] + t)[0] == c && ([c] + t)[1..] == t;
  }

  /** `Replace` substitutes a match at the front and resumes just after it. */
  lemma ReplaceSubstitutesHead(pat: string, t: string, rep: string)
    requires pat != []
    ensures Replace(pat + t, pat, rep) == rep + Replace(t, pat, rep)
  {
    assert pat <= pat + t;
    assert (pat + t)[|pat|..] == t;
  }

  /** The first decoding step on an escaped backslash followed by an escaped-colon-free rest. */
  lemma ReplaceAfterDoubledBackslash(x: string)
    requires x == [] || x[0] != '?'
    ensures Replace("\\\\" + x, "\\?", ":") == "\\\\" + Replace(x, "\\?", ":")
  {
    var pat, rep := "\\?", ":";
    assert !(pat <= ['\\'] + x) by {
      if x != [] { assert (['\\'] + x)[1] == x[0]; }
    }
    ReplaceCopiesHead('\\', x, pat, rep);
    assert "\\\\" + x == ['\\'] + (['\\'] + x);
    assert !(pat <= ['\\'] + (['\\'] + x)) by { assert (['\\'] + (['\\'] + x))[1] == '\\'; }
    ReplaceCopiesHead('\\', ['\\'] + x, pat, rep);
  }

  /** The first decoding step on the encoding of an original backslash, question mark pair. */
  lemma ReplaceAfterEscapedPair(y: string)
    ensures Replace("\\\\?" + y, "\\?", ":") == "\\:" + Replace(y, "\\?", ":")
  {
    var pat, rep := "\\?", ":";
    assert "\\\\?" + y == ['\\'] + (pat + y);
    assert !(pat <= ['\\'] + (pat + y)) by { assert (['\\'] + (pat + y))[1] == '\\'; }
    ReplaceCopiesHead('\\', pat + y, pat, rep);
    ReplaceSubstitutesHead(pat, y, rep);
  }

  lemma {:induction false} FirstDecodeStep(s: string)
    ensures Replace(Escaped(s), "\\?", ":") == HalfDecoded(s)
    decreases |s|
  {
    if s != [] {
      var x := Escaped(s[1..]);
      if |s| > 1 && s[0] == '\\' && s[1] == '?' {
        var y := Escaped(s[2..]);
        assert x == "?" + y;
        assert Escaped(s) == "\\\\?" + y;
        ReplaceAfterEscapedPair(y);
        FirstDecodeStep(s[2..]);
      } else if s[0] == '\\' {
        EscapedStart(s[1..]);
        assert Escaped(s) == "\\\\" + x;
        ReplaceAfterDoubledBackslash(x);
        FirstDecodeStep(s[1..]);
      } else if s[0] == ':' {
        assert Escaped(s) == "\\?" + x;
        ReplaceSubstitutesHead("\\?", x, ":");
        FirstDecodeStep(s[1..]);
      } else {
        assert Escaped(s) == [s[0]] + x;
        assert !("\\?" <= [s[0]] + x) by { assert ([s[0]] + x)[0] == s[0]; }
        ReplaceCopiesHead(s[0], x, "\\?", ":");
        FirstDecodeStep(s[1..]);
      }
    }
  }

  lemma {:induction false} SecondDecodeStep(s: string)
    ensures Replace(HalfDecoded(s), "\\\\", "\\") == Replace(s, "\\?", "\\:")
    decreases |s|
  {
    var pair, single := "\\\\", "\\";
    var escapedColon, kept := "\\?", "\\:";
    if s != [] {
      if |s| > 1 && s[0] == '\\' && s[1] == '?' {
        var y := HalfDecoded(s[2..]);
        assert HalfDecoded(s) == ['\\'] + ([':'] + y);
        assert ([':'] + y)[0] == ':';
        ReplaceCopiesHead(':', y, pair, single);
        assert !(pair <= ['\\'] + ([':'] + y)) by { assert (['\\'] + ([':'] + y))[1] == ':'; }
        ReplaceCopiesHead('\\', [':'] + y, pair, single);
        assert s == escapedColon + s[2..];
        ReplaceSubstitutesHead(escapedColon, s[2..], kept);
        SecondDecodeStep(s[2..]);
      } else if s[0] == '\\' {
        var y := HalfDecoded(s[1..]);
        assert HalfDecoded(s) == pair + y;
        ReplaceSubstitutesHead(pair, y, single);
        assert s == ['\\'] + s[1..];
        assert !(escapedColon <= ['\\'] + s[1..]) by {
          if |s| > 1 { assert (['\\'] + s[1..])[1] == s[1]; }
        }
        ReplaceCopiesHead('\\', s[1..], escapedColon, kept);
        SecondDecodeStep(s[1..]);
      } else {
        var y := HalfDecoded(s[1..]);
        assert HalfDecoded(s) == [s[0]] + y;
        assert ([s[0]] + y)[0] == s[0];
        ReplaceCopiesHead(s[0], y, pair, single);
        assert s == [s[0]] + s[1..];
        ReplaceCopiesHead(s[0], s[1..], escapedColon, kept);
        SecondDecodeStep(s[1..]);
      }
    }
  }

  // ----- what the codec guarantees -----

  /**
   * Decoding an encoded string gives back the original with every `\?` in it
   * turned into `\:`; this holds for every string.
   */
  lemma DecodeAfterEncode(s: string)
    ensures Decode(Encode(s)) == Replace(s, "\\?", "\\:")
  {
    EncodeIsEscaped(s);
    FirstDecodeStep(s);
    SecondDecodeStep(s);
  }

  /** The round trip restores a string exactly when it holds no backslash followed by `?`. */
  lemma RoundTrip(s: string)
    ensures Decode(Encode(s)) == s <==> NoEscapedColon(s)
  {
    DecodeAfterEncode(s);
    if NoEscapedColon(s) {
      ReplaceEscapedColonAbsent(s, "\\:");
    } else {
      ReplaceEscapedColonPresent(s);
    }
  }

  /** The two-character string backslash, question mark comes back as backslash, colon. */
  lemma BackslashQuestionNotRestored()
    ensures Decode(Encode("\\?")) == "\\:"
  {
    DecodeAfterEncode("\\?");
    assert "\\?" <= "\\?";
    assert ("\\?")[2..] == [];
  }

  /** Decoding leaves a string without backslashes alone. */
  lemma DecodePlain(s: string)
    requires '\\' !in s
    ensures Decode(s) == s
  {
    ReplaceAbsent(s, "\\?", ":");
    ReplaceAbsent(s, "\\\\", "\\");
  }

  // ----- facts about Split -----

  /** A separator-free field followed by the separator splits off as the first field. */
  lemma {:induction false} SplitField(a: string, rest: string, sep: char)
    requires sep !in a
    ensures Split(a + [sep] + rest, sep) == [a] + Split(rest, sep)
    decreases |a|
  {
    if a == [] {
      assert a + [sep] + rest == [sep] + rest;
      assert ([sep] + rest)[1..] == rest;
    } else {
      assert (a + [sep] + rest)[1..] == a[1..] + [sep] + rest;
      SplitField(a[1..], rest, sep);
      assert [a[0]] + a[1..] == a;
    }
  }

  /** A string without separators is a single field. */
  lemma {:induction false} SplitNoSeparator(a: string, sep: char)
    requires sep !in a
    ensures Split(a, sep) == [a]
    decreases |a|
  {
    if a != [] {
      SplitNoSeparator(a[1..], sep);
      assert [a[0]] + a[1..] == a;
    }
  }

  /** Splitting a join of separator-free fields gives those fields back. */
  lemma {:induction false} SplitJoin(fields: seq<string>, sep: char)
    requires |fields| >= 1
    requires forall k :: 0 <= k < |fields| ==> sep !in fields[k]
    ensures Split(Join(fields, sep), sep) == fields
    decreases |fields|
  {
    if |fields| == 1 {
      SplitNoSeparator(fields[0], sep);
    } else {
      SplitJoin(fields[1..], sep);
      SplitField(fields[0], Join(fields[1..], sep), sep);
      assert [fields[0]] + fields[1..] == fields;
    }
  }
}
