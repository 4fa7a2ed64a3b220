/** The string operations the filter/search controller is built on:
  * `String.prototype.includes`, `split(" ")`, `trim()` and `normalizeText`
  * (lower-case, canonical decomposition, removal of combining marks). */
module Text {

  // ---------------------------------------------------------------------
  // includes

  /** `t.includes(q)`. */
  predicate Contains(t: string, q: string)
    decreases |t|
  {
    q <= t || (t != [] && Contains(t[1..], q))
  }

  /** Reference definition of an occurrence: `q` starts at index `i` of `t`. */
  ghost predicate OccursAt(t: string, q: string, i: int)
  {
    0 <= i && i + |q| <= |t| && t[i..i + |q|] == q
  }

  /** `includes` holds exactly when the query occurs at some index. */
  lemma {:induction false} ContainsIff(t: string, q: string)
    ensures Contains(t, q) <==> exists i :: OccursAt(t, q, i)
    decreases |t|
  {
    if t != [] {
      ContainsIff(t[1..], q);
      if Contains(t[1..], q) {
        var i :| OccursAt(t[1..], q, i);
        assert t[i + 1..i + 1 + |q|] == t[1..][i..i + |q|];
        assert OccursAt(t, q, i + 1);
      }
    }
    if q <= t {
      assert OccursAt(t, q, 0);
    }
    if exists i :: OccursAt(t, q, i) {
      var i :| OccursAt(t, q, i);
      if i == 0 {
        assert q <= t;
      } else {
        assert t[1..][i - 1..i - 1 + |q|] == t[i..i + |q|];
        assert OccursAt(t[1..], q, i - 1);
      }
    }
  }

  // ---------------------------------------------------------------------
  // split and join

  /** `s.split(sep)` for a one-character separator: every occurrence of the
    * separator cuts, so adjacent separators give empty pieces and the empty
    * string gives one empty piece. */
  function Split(s: string, sep: char): (r: seq<string>)
    ensures |r| >= 1
    decreases |s|
  {
    if s == [] then [[]]
    else
      var rest := Split(s[1..], sep);
      if s[0] == sep then [[]] + rest
      else [[s[0]] + rest[0]] + rest[1..]
  }

  /** `parts.join(sep)`, the inverse of `Split`. */
  function Join(parts: seq<string>, sep: char): string
    decreases |parts|
  {
    if parts == [] then []
    else if |parts| == 1 then parts[0]
    else parts[0] + [sep] + Join(parts[1..], sep)
  }

  /** Splitting loses nothing: joining the pieces back gives the string, and
    * no piece contains the separator. */
  lemma {:induction false} SplitJoin(s: string, sep: char)
    ensures Join(Split(s, sep), sep) == s
    ensures forall p | p in Split(s, sep) :: sep !in p
    decreases |s|
  {
    if s != [] {
      var rest := Split(s[1..], sep);
      SplitJoin(s[1..], sep);
      assert rest[0] in rest;
      if s[0] == sep {
        assert Join([[]] + rest, sep) == [] + [sep] + Join(rest, sep);
      } else {
        var parts := [[s[0]] + rest[0]] + rest[1..];
        assert parts[1..] == rest[1..];
        if |rest| == 1 {
          assert Join(parts, sep) == [s[0]] + rest[0];
        } else {
          assert Join(rest, sep) == rest[0] + [sep] + Join(rest[1..], sep);
          assert Join(parts, sep) == [s[0]] + Join(rest, sep);
        }
        forall p | p in parts ensures sep !in p {
          if p != [s[0]] + rest[0] {
            assert p in rest;
          }
        }
      }
    }
  }

  /** A string without the separator splits into itself alone. */
  lemma {:induction false} SplitWithoutSeparator(s: string, sep: char)
    requires sep !in s
    ensures Split(s, sep) == [s]
    decreases |s|
  {
    if s != [] {
      SplitWithoutSeparator(s[1..], sep);
      assert [s[0]] + s[1..] == s;
    }
  }

  // ---------------------------------------------------------------------
  // trim

  /** ECMAScript WhiteSpace and LineTerminator code points, the characters
    * `trim()` removes (U+0009, U+000B, U+000C, U+FEFF and the Zs category,
    * plus U+000A, U+000D, U+2028, U+2029). */
  predicate IsSpace(c: char)
  {
    c == '\t' || c == '\n' || c == '\U{000B}' || c == '\U{000C}' || c == '\r'
    || c == ' ' || c == '\U{00A0}' || c == '\U{1680}'
    || ('\U{2000}' <= c <= '\U{200A}')
    || c == '\U{2028}' || c == '\U{2029}' || c == '\U{202F}' || c == '\U{205F}'
    || c == '\U{3000}' || c == '\U{FEFF}'
  }

  /** Drops leading white space: the result is a suffix of `s`, what was
    * dropped is all white space, and the result does not start with any. */
  function TrimStart(s: string): (r: string)
    ensures |r| <= |s| && r == s[|s| - |r|..]
    ensures forall i :: 0 <= i < |s| - |r| ==> IsSpace(s[i])
    ensures r == [] || !IsSpace(r[0])
    decreases |s|
  {
    if s != [] && IsSpace(s[0]) then TrimStart(s[1..]) else s
  }

  /** Drops trailing white space: the result is a prefix of `s`, what was
    * dropped is all white space, and the result does not end with any. */
  function TrimEnd(s: string): (r: string)
    ensures |r| <= |s| && r == s[..|r|]
    ensures forall i :: |r| <= i < |s| ==> IsSpace(s[i])
    ensures r == [] || !IsSpace(r[|r| - 1])
    decreases |s|
  {
    if s != [] && IsSpace(s[|s| - 1]) then TrimEnd(s[..|s| - 1]) else s
  }

  /** `s.trim()`. */
  function Trim(s: string): string
  {
    TrimEnd(TrimStart(s))
  }

  /** The result of `trim()` neither starts nor ends with white space, and
    * trimming it again changes nothing. */
  lemma TrimIdempotent(s: string)
    ensures Trim(s) == [] || (!IsSpace(Trim(s)[0]) && !IsSpace(Trim(s)[|Trim(s)| - 1]))
    ensures Trim(Trim(s)) == Trim(s)
  {
    var t := Trim(s);
    if t != [] {
      assert t[0] == TrimStart(s)[0];
      assert TrimStart(t) == t;
    }
  }

  // ---------------------------------------------------------------------
  // normalizeText

  /** A combining diacritical mark, U+0300..U+036F: the range whose
    * characters the last step of `normalizeText` deletes. */
  predicate IsCombiningMark(c: char)
  {
    '\U{0300}' <= c <= '\U{036F}'
  }

  /** `toLowerCase` on one character, for the Basic Latin and Latin-1
    * letters (A-Z and U+00C0..U+00DE except the multiplication sign). */
  function LowerChar(c: char): char
  {
    if 'A' <= c <= 'Z' || ('\U{00C0}' <= c <= '\U{00DE}' && c != '\U{00D7}')
    then (c as int + 32) as char
    else c
  }

  function Lower(s: string): string
    decreases |s|
  {
    if s == [] then [] else [LowerChar(s[0])] + Lower(s[1..])
  }

  /** The canonical decomposition (NFD) of the lower-case Latin-1 letters
    * that carry an accent, as (base letter, combining mark); any other
    * character maps to (itself, itself). */
  function AccentOf(c: char): (r: (char, char))
    ensures r.0 == c || ('\U{00E0}' <= c <= '\U{00FF}' && 'a' <= r.0 <= 'z' && IsCombiningMark(r.1))
  {
    match c
    case '\U{00E0}' => ('a', '\U{0300}')
    case '\U{00E1}' => ('a', '\U{0301}')
    case '\U{00E2}' => ('a', '\U{0302}')
    case '\U{00E3}' => ('a', '\U{0303}')
    case '\U{00E4}' => ('a', '\U{0308}')
    case '\U{00E5}' => ('a', '\U{030A}')
    case '\U{00E7}' => ('c', '\U{0327}')
    case '\U{00E8}' => ('e', '\U{0300}')
    case '\U{00E9}' => ('e', '\U{0301}')
    case '\U{00EA}' => ('e', '\U{0302}')
    case '\U{00EB}' => ('e', '\U{0308}')
    case '\U{00EC}' => ('i', '\U{0300}')
    case '\U{00ED}' => ('i', '\U{0301}')
    case '\U{00EE}' => ('i', '\U{0302}')
    case '\U{00EF}' => ('i', '\U{0308}')
    case '\U{00F1}' => ('n', '\U{0303}')
    case '\U{00F2}' => ('o', '\U{0300}')
    case '\U{00F3}' => ('o', '\U{0301}')
    case '\U{00F4}' => ('o', '\U{0302}')
    case '\U{00F5}' => ('o', '\U{0303}')
    case '\U{00F6}' => ('o', '\U{0308}')
    case '\U{00F9}' => ('u', '\U{0300}')
    case '\U{00FA}' => ('u', '\U{0301}')
    case '\U{00FB}' => ('u', '\U{0302}')
    case '\U{00FC}' => ('u', '\U{0308}')
    case '\U{00FD}' => ('y', '\U{0301}')
    case '\U{00FF}' => ('y', '\U{0308}')
    case _ => (c, c)
  }

  /** NFD of one character: the base letter and its mark, or the character. */
  function Decompose(c: char): seq<char>
  {
    var (base, mark) := AccentOf(c);
    if base == c then [c] else [base, mark]
  }

  function DecomposeAll(s: string): string
    decreases |s|
  {
    if s == [] then [] else Decompose(s[0]) + DecomposeAll(s[1..])
  }

  /** Removes every combining mark and keeps the other characters in order. */
  function StripMarks(s: string): (r: string)
    ensures |r| <= |s|
    ensures forall c | c in r :: c in s && !IsCombiningMark(c)
    ensures (forall c | c in s :: !IsCombiningMark(c)) ==> r == s
    decreases |s|
  {
    if s == [] then []
    else if IsCombiningMark(s[0]) then StripMarks(s[1..])
    else [s[0]] + StripMarks(s[1..])
  }

  /** `normalizeText(value)`: lower-case, decompose, drop combining marks. */
  function Normalize(s: string): string
  {
    StripMarks(DecomposeAll(Lower(s)))
  }

  /** A character that every stage of `Normalize` leaves alone. */
  predicate Folded(c: char)
  {
    LowerChar(c) == c && Decompose(c) == [c] && !IsCombiningMark(c)
  }

  lemma {:induction false} LowerFixesLowered(s: string)
    ensures forall c | c in Lower(s) :: LowerChar(c) == c
    decreases |s|
  {
    if s != [] {
      LowerFixesLowered(s[1..]);
      assert forall c | c in Lower(s) :: c == LowerChar(s[0]) || c in Lower(s[1..]);
    }
  }

  /** What `Decompose` produces from a lower-case character is lower-case, and
    * each piece is either a mark or decomposes to itself. */
  lemma DecomposePieces(c: char)
    requires LowerChar(c) == c
    ensures forall d | d in Decompose(c) :: LowerChar(d) == d && (IsCombiningMark(d) || Decompose(d) == [d])
  {
    var (base, mark) := AccentOf(c);
    if base != c {
      assert AccentOf(base).0 == base;
    }
  }

  lemma {:induction false} DecomposeAllPieces(s: string)
    requires forall c | c in s :: LowerChar(c) == c
    ensures forall d | d in DecomposeAll(s) :: LowerChar(d) == d && (IsCombiningMark(d) || Decompose(d) == [d])
    decreases |s|
  {
    if s != [] {
      DecomposePieces(s[0]);
      DecomposeAllPieces(s[1..]);
      assert forall d | d in DecomposeAll(s) :: d in Decompose(s[0]) || d in DecomposeAll(s[1..]);
    }
  }

  /** Every character of a normalized string is folded. */
  lemma NormalizeFolded(s: string)
    ensures forall c | c in Normalize(s) :: Folded(c)
  {
    LowerFixesLowered(s);
    DecomposeAllPieces(Lower(s));
  }

  /** A string of folded characters is its own normal form. */
  lemma {:induction false} NormalizeFixesFolded(s: string)
    requires forall c | c in s :: Folded(c)
    ensures Lower(s) == s && DecomposeAll(s) == s && StripMarks(s) == s
    ensures Normalize(s) == s
    decreases |s|
  {
    if s != [] {
      assert Folded(s[0]);
      NormalizeFixesFolded(s[1..]);
      assert [s[0]] + s[1..] == s;
    }
  }

  /** `normalizeText` is idempotent: normalizing a normalized string (as the
    * query and the keywords both are) changes nothing. */
  lemma NormalizeIdempotent(s: string)
    ensures Normalize(Normalize(s)) == Normalize(s)
  {
    NormalizeFolded(s);
    NormalizeFixesFolded(Normalize(s));
  }

  lemma {:induction false} LowerConcat(a: string, b: string)
    ensures Lower(a + b) == Lower(a) + Lower(b)
    decreases |a|
  {
    if a != [] {
      LowerConcat(a[1..], b);
      assert (a + b)[1..] == a[1..] + b;
    } else {
      assert a + b == b;
    }
  }

  lemma {:induction false} DecomposeAllConcat(a: string, b: string)
    ensures DecomposeAll(a + b) == DecomposeAll(a) + DecomposeAll(b)
    decreases |a|
  {
    if a != [] {
      DecomposeAllConcat(a[1..], b);
      assert (a + b)[1..] == a[1..] + b;
    } else {
      assert a + b == b;
    }
  }

  lemma {:induction false} StripMarksConcat(a: string, b: string)
    ensures StripMarks(a + b) == StripMarks(a) + StripMarks(b)
    decreases |a|
  {
    if a != [] {
      assert (a + b)[0] == a[0] && (a + b)[1..] == a[1..] + b;
      StripMarksConcat(a[1..], b);
      if IsCombiningMark(a[0]) {
        assert StripMarks(a) == StripMarks(a[1..]);
      } else {
        assert StripMarks(a) == [a[0]] + StripMarks(a[1..]);
      }
    } else {
      assert a + b == b;
    }
  }

  /** On one character the mark removal drops a combining mark and keeps
    * anything else; with `StripMarksConcat` this fixes it on every string. */
  lemma StripMarksChar(c: char)
    ensures StripMarks([c]) == if IsCombiningMark(c) then [] else [c]
  {
    assert [c][1..] == [];
  }

  /** Mark removal keeps the non-mark characters of a string in order: one
    * inserted between two parts is kept between their stripped forms. */
  lemma StripMarksKeepsOrder(a: string, c: char, b: string)
    requires !IsCombiningMark(c)
    ensures StripMarks(a + [c] + b) == StripMarks(a) + [c] + StripMarks(b)
  {
    StripMarksConcat(a + [c], b);
    StripMarksConcat(a, [c]);
    StripMarksChar(c);
  }

  /** `normalizeText` works character by character: normalizing a
    * concatenation is concatenating the normalized parts. */
  lemma NormalizeConcat(a: string, b: string)
    ensures Normalize(a + b) == Normalize(a) + Normalize(b)
  {
    LowerConcat(a, b);
    DecomposeAllConcat(Lower(a), Lower(b));
    StripMarksConcat(DecomposeAll(Lower(a)), DecomposeAll(Lower(b)));
  }

  /** Normalizing a single precomposed "\u00e9" gives a plain "e". */
  lemma NormalizeEAcute()
    ensures Normalize("\U{00E9}") == "e"
  {
    assert Lower("\U{00E9}") == "\U{00E9}";
    assert AccentOf('\U{00E9}') == ('e', '\U{0301}');
    assert DecomposeAll("\U{00E9}") == "e\U{0301}";
    assert StripMarks("\U{0301}") == [];
    assert StripMarks("e\U{0301}") == "e";
  }

  /** A lone combining acute accent normalizes to nothing. */
  lemma NormalizeCombiningAcute()
    ensures Normalize("\U{0301}") == []
  {
    assert Lower("\U{0301}") == "\U{0301}";
    assert AccentOf('\U{0301}').0 == '\U{0301}';
    assert DecomposeAll("\U{0301}") == "\U{0301}";
  }

  /** Lower-case ASCII letters are already in normal form. */
  lemma NormalizeLowerAscii(s: string)
    requires forall c | c in s :: 'a' <= c <= 'z'
    ensures Normalize(s) == s
  {
    forall c | c in s ensures Folded(c) {
      assert AccentOf(c).0 == c;
    }
    NormalizeFixesFolded(s);
  }

  /** A precomposed e-acute anywhere in a string normalizes like a plain "e". */
  lemma PrecomposedAccentIgnored(a: string, b: string)
    ensures Normalize(a + "\U{00E9}" + b) == Normalize(a + "e" + b)
  {
    NormalizeEAcute();
    NormalizeLowerAscii("e");
    NormalizeConcat(a, "\U{00E9}");
    NormalizeConcat(a + "\U{00E9}", b);
    NormalizeConcat(a, "e");
    NormalizeConcat(a + "e", b);
  }

  /** An "e" followed by a combining acute accent anywhere in a string
    * normalizes like a plain "e". */
  lemma CombiningAccentIgnored(a: string, b: string)
    ensures Normalize(a + "e\U{0301}" + b) == Normalize(a + "e" + b)
  {
    NormalizeCombiningAcute();
    NormalizeLowerAscii("e");
    NormalizeConcat("e", "\U{0301}");
    assert "e" + "\U{0301}" == "e\U{0301}";
    NormalizeConcat(a, "e");
    NormalizeConcat(a + "e", b);
    NormalizeConcat(a, "e\U{0301}");
    NormalizeConcat(a + "e\U{0301}", b);
  }

  /** Accents do not matter: wherever it stands, a precomposed e-acute
    * normalizes like a plain "e" and like "e" followed by a combining acute
    * accent. */
  lemma AccentsIgnored(a: string, b: string)
    ensures Normalize(a + "\U{00E9}" + b) == Normalize(a + "e" + b)
    ensures Normalize(a + "e\U{0301}" + b) == Normalize(a + "e" + b)
  {
    PrecomposedAccentIgnored(a, b);
    CombiningAccentIgnored(a, b);
  }

  /** Case does not matter: wherever it stands, an upper-case ASCII letter
    * normalizes like its lower-case form. */
  lemma CaseIgnored(a: string, b: string, c: char)
    requires 'A' <= c <= 'Z'
    ensures Normalize(a + [c] + b) == Normalize(a + [(c as int + 32) as char] + b)
  {
    var lower := (c as int + 32) as char;
    assert 'a' <= lower <= 'z' && LowerChar(c) == lower && LowerChar(lower) == lower;
    assert Lower([c]) == [LowerChar(c)] + Lower([]);
    assert Lower([lower]) == [LowerChar(lower)] + Lower([]);
    NormalizeConcat(a, [c]);
    NormalizeConcat(a + [c], b);
    NormalizeConcat(a, [lower]);
    NormalizeConcat(a + [lower], b);
  }
}
