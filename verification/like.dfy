/** SQLite's `LIKE` operator, as used by the project search: the text column
    is matched against the pattern `'%' || search || '%'` with no ESCAPE
    clause. SQLite's default LIKE ignores case for the 26 ASCII letters only.
 */
module Like {

  /** The case folding of SQLite's default LIKE: ASCII upper-case to lower-case, nothing else. */
  function Fold(c: char): (d: char)
    ensures 'A' <= c <= 'Z' ==> 'a' <= d <= 'z' && d as int - c as int == 32
    ensures !('A' <= c <= 'Z') ==> d == c
  {
    if 'A' <= c <= 'Z' then (c as int + 32) as char else c
  }

  /** `text LIKE pattern`: `%` matches any run of characters, `_` any one
      character, any other character itself up to ASCII case. */
  predicate Matches(text: string, pattern: string)
    decreases |pattern|, |text|
  {
    if pattern == [] then text == []
    else if pattern[0] == '%' then
      Matches(text, pattern[1..]) || (text != [] && Matches(text[1..], pattern))
    else
      && text != []
      && (pattern[0] == '_' || Fold(pattern[0]) == Fold(text[0]))
      && Matches(text[1..], pattern[1..])
  }

  /** SQLAlchemy's `column.contains(needle)` on SQLite. */
  predicate Contains(text: string, needle: string) {
    Matches(text, "%" + needle + "%")
  }

  /** `needle` holds neither LIKE wildcard. */
  predicate Literal(needle: string) {
    forall k :: 0 <= k < |needle| ==> needle[k] != '%' && needle[k] != '_'
  }

  /** `needle` occurs in `text` at offset `i`, up to ASCII case. */
  ghost predicate OccursAt(text: string, needle: string, i: int) {
    0 <= i && i + |needle| <= |text| && forall k :: 0 <= k < |needle| ==> Fold(text[i + k]) == Fold(needle[k])
  }

  /** `needle` is a substring of `text`, up to ASCII case. */
  ghost predicate FoldedSubstring(text: string, needle: string) {
    exists i :: OccursAt(text, needle, i)
  }

  /** A search without wildcards matches exactly the texts that contain it,
      ignoring the case of ASCII letters. */
  lemma ContainsLiteral(text: string, needle: string)
    requires Literal(needle)
    ensures Contains(text, needle) <==> FoldedSubstring(text, needle)
  {
    assert "%" + needle + "%" == "%" + (needle + "%");
    LeadingPercent(text, needle + "%");
    if Contains(text, needle) {
      var i :| 0 <= i <= |text| && Matches(text[i..], needle + "%");
      TrailingPercent(text[i..], needle);
      assert OccursAt(text, needle, i) by {
        forall k | 0 <= k < |needle|
          ensures Fold(text[i + k]) == Fold(needle[k])
        {
          assert text[i..][k] == text[i + k];
        }
      }
    }
    if FoldedSubstring(text, needle) {
      var i :| OccursAt(text, needle, i);
      TrailingPercent(text[i..], needle);
      assert OccursAt(text[i..], needle, 0) by {
        forall k | 0 <= k < |needle|
          ensures Fold(text[i..][k]) == Fold(needle[k])
        {
          assert text[i..][k] == text[i + k];
        }
      }
    }
  }

  /** A pattern `%p` matches a text exactly when `p` matches one of its suffixes. */
  lemma {:induction false} LeadingPercent(text: string, p: string)
    ensures Matches(text, "%" + p) <==> exists i :: 0 <= i <= |text| && Matches(text[i..], p)
    decreases |text|
  {
    assert ("%" + p)[0] == '%' && ("%" + p)[1..] == p;
    if text == [] {
      if Matches(text, "%" + p) {
        assert Matches(text[0..], p);
      }
    } else {
      LeadingPercent(text[1..], p);
      if Matches(text, "%" + p) {
        if !Matches(text, p) {
          var i :| 0 <= i <= |text[1..]| && Matches(text[1..][i..], p);
          assert text[1..][i..] == text[i + 1..];
        } else {
          assert text[0..] == text;
        }
      }
      if exists i :: 0 <= i <= |text| && Matches(text[i..], p) {
        var i :| 0 <= i <= |text| && Matches(text[i..], p);
        if i == 0 {
          assert text[0..] == text;
        } else {
          assert text[1..][i - 1..] == text[i..];
        }
      }
    }
  }

  /** A pattern `%` matches every text. */
  lemma {:induction false} PercentMatchesAll(text: string)
    ensures Matches(text, "%")
    decreases |text|
  {
    assert "%"[1..] == [];
    if text != [] {
      PercentMatchesAll(text[1..]);
    }
  }

  /** A literal followed by `%` matches exactly the texts that start with it, up to ASCII case. */
  lemma {:induction false} TrailingPercent(text: string, needle: string)
    requires Literal(needle)
    ensures Matches(text, needle + "%") <==> OccursAt(text, needle, 0)
    decreases |needle|
  {
    if needle == [] {
      assert needle + "%" == "%";
      PercentMatchesAll(text);
    } else {
      var p := needle + "%";
      assert p[0] == needle[0] && p[1..] == needle[1..] + "%";
      assert Literal(needle[1..]);
      if text != [] {
        TrailingPercent(text[1..], needle[1..]);
        if OccursAt(text, needle, 0) {
          assert OccursAt(text[1..], needle[1..], 0) by {
            forall k | 0 <= k < |needle[1..]|
              ensures Fold(text[1..][k]) == Fold(needle[1..][k])
            {
              assert Fold(text[0 + (k + 1)]) == Fold(needle[k + 1]);
            }
          }
        }
        if OccursAt(text[1..], needle[1..], 0) && Fold(needle[0]) == Fold(text[0]) {
          assert OccursAt(text, needle, 0) by {
            forall k | 0 <= k < |needle|
              ensures Fold(text[0 + k]) == Fold(needle[k])
            {
              if k > 0 {
                assert Fold(text[1..][0 + (k - 1)]) == Fold(needle[1..][k - 1]);
              }
            }
          }
        }
      }
    }
  }
}
