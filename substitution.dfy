/** The tag substitution engine of `replace_tags_in_file`: literal, sequential
    replacement of every tag of a variant, in the order the variant lists them.
    Python's `tag in content` is `Occurs` and `content.replace(tag, value)` is
    `ReplaceAll`. */
module Substitution {

  /** One entry of a variant's replacement table: (tag, value). */
  type Pair = (string, string)

  /** Python's `t in s`: t is a substring of s. The empty string occurs in
      every string. */
  predicate Occurs(s: string, t: string)
    decreases |s|
  {
    t <= s || (|s| > 0 && Occurs(s[1..], t))
  }

  /** t occurs in s starting at index i. */
  predicate MatchAt(s: string, t: string, i: int)
  {
    0 <= i && i + |t| <= |s| && s[i..i + |t|] == t
  }

  /** Python's `s.replace("", value)`: value is inserted before every character
      and once more at the end. */
  function InsertEverywhere(s: string, value: string): string
    decreases |s|
  {
    if s == [] then value else value + [s[0]] + InsertEverywhere(s[1..], value)
  }

  /** Python's `s.replace(tag, value)`: scanning left to right, every
      non-overlapping occurrence of tag is replaced by value. */
  function ReplaceAll(s: string, tag: string, value: string): string
    decreases |s|
  {
    if tag == [] then InsertEverywhere(s, value)
    else if tag <= s then value + ReplaceAll(s[|tag|..], tag, value)
    else if s == [] then []
    else [s[0]] + ReplaceAll(s[1..], tag, value)
  }

  /** One iteration of the loop: replace only when the tag is present. */
  function Step(s: string, pair: Pair): string
  {
    if Occurs(s, pair.0) then ReplaceAll(s, pair.0, pair.1) else s
  }

  /** The contents after all pairs were applied in order, each one to the output
      of the previous ones. */
  function ApplyAll(s: string, pairs: seq<Pair>): string
    decreases |pairs|
  {
    if pairs == [] then s
    else Step(ApplyAll(s, pairs[..|pairs| - 1]), pairs[|pairs| - 1])
  }

  /** The `modified` flag after all pairs: set by the first tag that was present
      in the contents at the moment it was checked. */
  predicate Modified(s: string, pairs: seq<Pair>)
    decreases |pairs|
  {
    if pairs == [] then false
    else Modified(s, pairs[..|pairs| - 1]) || Occurs(ApplyAll(s, pairs[..|pairs| - 1]), pairs[|pairs| - 1].0)
  }

  /** The i-th tag occurred in the contents produced by the pairs before it. */
  predicate HitAt(s: string, pairs: seq<Pair>, i: int)
  {
    0 <= i < |pairs| && Occurs(ApplyAll(s, pairs[..i]), pairs[i].0)
  }

  /** No character of a appears in b. */
  predicate CharsDisjoint(a: string, b: string)
  {
    forall c :: c in a ==> c !in b
  }

  /** The substitution loop of `replace_tags_in_file`, after the file was read:
      returns the new contents and whether any tag occurred. */
  method SubstituteTags(content: string, pairs: seq<Pair>) returns (result: string, modified: bool)
    ensures result == ApplyAll(content, pairs)
    ensures modified <==> exists i :: HitAt(content, pairs, i)
    ensures !modified ==> result == content
  {
    result, modified := content, false;
    for i := 0 to |pairs|
      invariant result == ApplyAll(content, pairs[..i])
      invariant modified == Modified(content, pairs[..i])
    {
      assert pairs[..i + 1][..i] == pairs[..i];
      var (tag, value) := pairs[i];
      if Occurs(result, tag) {
        result := ReplaceAll(result, tag, value);
        modified := true;
      }
    }
    assert pairs[..|pairs|] == pairs;
    ModifiedIffSomeTagOccurred(content, pairs);
    UnmodifiedIsUnchanged(content, pairs);
  }

  // ---------------------------------------------------------------------------
  // Occurrence

  /** `Occurs` agrees with the index-based reading of "t is a substring of s". */
  lemma {:induction false} OccursIffMatchAt(s: string, t: string)
    ensures Occurs(s, t) <==> exists i :: MatchAt(s, t, i)
    decreases |s|
  {
    if t <= s {
      assert MatchAt(s, t, 0);
    } else if |s| == 0 {
      assert t != [];
    } else {
      OccursIffMatchAt(s[1..], t);
      if exists j :: MatchAt(s[1..], t, j) {
        var j :| MatchAt(s[1..], t, j);
        assert s[1..][j..j + |t|] == s[j + 1..j + 1 + |t|];
        assert MatchAt(s, t, j + 1);
      }
      if |t| <= |s| {
        assert s[0..|t|] == s[..|t|];
      }
      assert !MatchAt(s, t, 0);
      if exists i :: MatchAt(s, t, i) {
        var i :| MatchAt(s, t, i);
        assert i > 0;
        assert s[i..i + |t|] == s[1..][i - 1..i - 1 + |t|];
        assert MatchAt(s[1..], t, i - 1);
      }
    }
  }

  /** An occurrence of a non-empty t in a + b, where a does not hold t's first
      character, lies inside b. */
  lemma {:induction false} OccursInSuffix(a: string, b: string, t: string)
    requires |t| > 0 && t[0] !in a
    ensures Occurs(a + b, t) ==> Occurs(b, t)
    decreases |a|
  {
    if a != [] {
      assert (a + b)[1..] == a[1..] + b;
      assert a[0] in a;
      OccursInSuffix(a[1..], b, t);
    } else {
      assert a + b == b;
    }
  }

  // ---------------------------------------------------------------------------
  // ReplaceAll

  /** Replacing a tag that does not occur leaves the string as it was: the
      `tag in content` guard changes only the `modified` flag. */
  lemma {:induction false} ReplaceAllAbsent(s: string, tag: string, value: string)
    requires !Occurs(s, tag)
    ensures ReplaceAll(s, tag, value) == s
    decreases |s|
  {
    if s != [] {
      ReplaceAllAbsent(s[1..], tag, value);
      assert [s[0]] + s[1..] == s;
    }
  }

  /** Replacing a tag by itself changes nothing, the empty tag included. */
  lemma {:induction false} ReplaceAllSelf(s: string, tag: string)
    ensures ReplaceAll(s, tag, tag) == s
    decreases |s|
  {
    if tag == [] {
      InsertNothing(s);
    } else if tag <= s {
      ReplaceAllSelf(s[|tag|..], tag);
      assert tag + s[|tag|..] == s;
    } else if s != [] {
      ReplaceAllSelf(s[1..], tag);
      assert [s[0]] + s[1..] == s;
    }
  }

  lemma {:induction false} InsertNothing(s: string)
    ensures InsertEverywhere(s, []) == s
    decreases |s|
  {
    if s != [] {
      InsertNothing(s[1..]);
      assert [] + [s[0]] + s[1..] == s;
    }
  }

  /** The empty tag inserts the value |s| + 1 times. */
  lemma {:induction false} InsertEverywhereLength(s: string, value: string)
    ensures |ReplaceAll(s, [], value)| == |s| + (|s| + 1) * |value|
    decreases |s|
  {
    if s != [] {
      InsertEverywhereLength(s[1..], value);
      calc {
        |ReplaceAll(s, [], value)|;
        |value| + 1 + |InsertEverywhere(s[1..], value)|;
        |value| + 1 + (|s| - 1) + |s| * |value|;
        |s| + (|s| + 1) * |value|;
      }
    }
  }

  /** Every non-empty prefix q of the result whose characters are not in value
      was already a prefix of the input. */
  lemma {:induction false} PrefixOfReplaced(s: string, tag: string, value: string, q: string)
    requires |tag| > 0 && |value| > 0 && |q| > 0
    requires forall c :: c in q ==> c !in value
    ensures q <= ReplaceAll(s, tag, value) ==> q <= s
    decreases |s|
  {
    assert q[0] in q;
    if tag <= s {
      assert ReplaceAll(s, tag, value)[0] == value[0];
      assert value[0] in value;
    } else if s != [] {
      var r := ReplaceAll(s[1..], tag, value);
      if |q| > 1 && q <= [s[0]] + r {
        assert q[1..] <= r;
        forall c | c in q[1..] ensures c !in value {
          assert c in q;
        }
        PrefixOfReplaced(s[1..], tag, value, q[1..]);
        assert q == [q[0]] + q[1..];
      }
    }
  }

  /** Substitution completeness: when the value is non-empty and shares no
      character with the tag, no occurrence of the tag survives. */
  lemma {:induction false} NoResidualTag(s: string, tag: string, value: string)
    requires |tag| > 0 && |value| > 0
    requires CharsDisjoint(tag, value)
    ensures !Occurs(ReplaceAll(s, tag, value), tag)
    decreases |s|
  {
    assert tag[0] in tag;
    if tag <= s {
      NoResidualTag(s[|tag|..], tag, value);
      OccursInSuffix(value, ReplaceAll(s[|tag|..], tag, value), tag);
    } else if s != [] {
      NoResidualTag(s[1..], tag, value);
      PrefixOfReplaced(s, tag, value, tag);
      assert ([s[0]] + ReplaceAll(s[1..], tag, value))[1..] == ReplaceAll(s[1..], tag, value);
    }
  }

  /** A value that does not contain the tag is not enough for completeness:
      "abb".replace("ab", "a") is "ab", because the inserted value and the
      following text form a new occurrence. */
  lemma ResidualTagDespiteValueWithoutTag()
    ensures !Occurs("a", "ab")
    ensures ReplaceAll("abb", "ab", "a") == "ab"
    ensures Occurs(ReplaceAll("abb", "ab", "a"), "ab")
  {
    assert !("ab" <= "a");
    assert !Occurs("", "ab");
    assert "ab" <= "abb";
    assert "abb"[2..] == "b";
    assert !("ab" <= "b");
    assert "b"[1..] == "";
    assert ReplaceAll("b", "ab", "a") == "b";
  }

  // ---------------------------------------------------------------------------
  // Sequential application

  /** Later tags see the output of earlier ones: with ("A","B") then ("B","C"),
      "A" becomes "C", not "B". */
  lemma SequentialChain()
    ensures ApplyAll("A", [("A", "B"), ("B", "C")]) == "C"
  {
    var pairs := [("A", "B"), ("B", "C")];
    assert pairs[..1] == [("A", "B")];
    assert pairs[..1][..0] == [];
    assert "A" <= "A" && "A"[1..] == "";
    assert ReplaceAll("A", "A", "B") == "B";
    assert ApplyAll("A", pairs[..1]) == "B";
    assert "B" <= "B" && "B"[1..] == "";
    assert ReplaceAll("B", "B", "C") == "C";
  }

  /** The flag is set exactly when some tag occurred in the contents at the
      moment it was checked. */
  lemma {:induction false} ModifiedIffSomeTagOccurred(s: string, pairs: seq<Pair>)
    ensures Modified(s, pairs) <==> exists i :: HitAt(s, pairs, i)
    decreases |pairs|
  {
    if pairs != [] {
      var n := |pairs| - 1;
      var init := pairs[..n];
      ModifiedIffSomeTagOccurred(s, init);
      forall i | 0 <= i < n ensures HitAt(s, pairs, i) <==> HitAt(s, init, i) {
        assert pairs[..i] == init[..i];
      }
      if Modified(s, pairs) && !Modified(s, init) {
        assert HitAt(s, pairs, n);
      }
      if exists i :: HitAt(s, pairs, i) {
        var i :| HitAt(s, pairs, i);
        assert i < n ==> HitAt(s, init, i);
      }
    }
  }

  /** When the flag is false the contents are returned exactly as read. */
  lemma {:induction false} UnmodifiedIsUnchanged(s: string, pairs: seq<Pair>)
    ensures !Modified(s, pairs) ==> ApplyAll(s, pairs) == s
    decreases |pairs|
  {
    if pairs != [] {
      UnmodifiedIsUnchanged(s, pairs[..|pairs| - 1]);
    }
  }
}
