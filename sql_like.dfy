/** The SQL `LIKE` operator as the filtered product query uses it: `%`
    matches any run of characters, `_` any single character, every other
    pattern character itself. */
module SqlLike {

  /** `v LIKE p`. */
  predicate Like(v: string, p: string)
    decreases |v| + |p|
  {
    if p == [] then v == []
    else if p[0] == '%' then Like(v, p[1..]) || (v != [] && Like(v[1..], p))
    else v != [] && (p[0] == '_' || v[0] == p[0]) && Like(v[1..], p[1..])
  }

  /** Search text with no wildcard in it. */
  predicate IsPlain(s: string) {
    forall i :: 0 <= i < |s| ==> s[i] != '%' && s[i] != '_'
  }

  /** `s` occurs in `v` starting at position `i`. */
  predicate OccursAt(v: string, s: string, i: nat) {
    i + |s| <= |v| && v[i..i + |s|] == s
  }

  /** `s` occurs in `v` as a contiguous substring. */
  ghost predicate Contains(v: string, s: string) {
    exists i: nat :: OccursAt(v, s, i)
  }

  /** A lone `%` matches everything. */
  lemma {:induction false} LikeAnything(v: string)
    ensures Like(v, "%")
  {
    if v != [] {
      LikeAnything(v[1..]);
    }
  }

  /** `s%` matches exactly the strings that start with the plain text `s`. */
  lemma {:induction false} LikePrefix(v: string, s: string)
    requires IsPlain(s)
    ensures Like(v, s + "%") <==> |s| <= |v| && v[..|s|] == s
  {
    if s == [] {
      assert s + "%" == "%";
      LikeAnything(v);
    } else {
      var p := s + "%";
      assert p[0] == s[0] && p[1..] == s[1..] + "%";
      assert IsPlain(s[1..]) by {
        forall i | 0 <= i < |s[1..]| ensures s[1..][i] != '%' && s[1..][i] != '_' {
          assert s[1..][i] == s[i + 1];
        }
      }
      assert s[0] != '%' && s[0] != '_';
      if v != [] {
        LikePrefix(v[1..], s[1..]);
        if |s| <= |v| {
          assert v[..|s|] == [v[0]] + v[1..][..|s| - 1];
          assert s == [s[0]] + s[1..];
        }
      }
    }
  }

  /** A leading `%` lets the rest of the pattern match any suffix. */
  lemma {:induction false} LikeLeadingPercent(v: string, q: string)
    ensures Like(v, "%" + q) <==> exists i :: 0 <= i <= |v| && Like(v[i..], q)
    decreases |v|
  {
    var p := "%" + q;
    assert p[0] == '%' && p[1..] == q;
    if Like(v, p) {
      if Like(v, q) {
        assert v[0..] == v;
      } else {
        LikeLeadingPercent(v[1..], q);
        var i :| 0 <= i <= |v[1..]| && Like(v[1..][i..], q);
        assert v[1..][i..] == v[i + 1..];
      }
    }
    if exists i :: 0 <= i <= |v| && Like(v[i..], q) {
      var i :| 0 <= i <= |v| && Like(v[i..], q);
      if i == 0 {
        assert v[0..] == v;
      } else {
        assert v[1..][i - 1..] == v[i..];
        LikeLeadingPercent(v[1..], q);
      }
    }
  }

  /** The pattern `%s%` built from plain text is a substring test. */
  lemma LikeIsContains(v: string, s: string)
    requires IsPlain(s)
    ensures Like(v, "%" + s + "%") <==> Contains(v, s)
  {
    assert "%" + s + "%" == "%" + (s + "%");
    LikeLeadingPercent(v, s + "%");
    if Contains(v, s) {
      var i: nat :| OccursAt(v, s, i);
      LikePrefix(v[i..], s);
      assert v[i..][..|s|] == v[i..i + |s|];
    }
    if Like(v, "%" + s + "%") {
      var i :| 0 <= i <= |v| && Like(v[i..], s + "%");
      LikePrefix(v[i..], s);
      assert v[i..][..|s|] == v[i..i + |s|];
      assert OccursAt(v, s, i);
    }
  }
}
