/**
  The school a user belongs to, read out of the e-mail address when the
  listing screen loads: the text strictly between the first `@` and the
  first `.`. The app's parse traps when it cannot form that range;
  here that outcome is `None`.
 */
module School {
  import opened Wrappers
  import opened Text

  /**
    The parse can form its range: both characters are present and every
    `.` has an `@` somewhere before it, so the first `.` follows the first `@`.
   */
  ghost predicate Parsable(email: string) {
    && '@' in email
    && '.' in email
    && forall j :: 0 <= j < |email| && email[j] == '.' ==> '@' in email[..j]
  }

  /**
    The school: `email[at + 1 ..< dot]` with `at` the first `@` and `dot` the
    first `.`; `None` where the app traps (a missing character, or a
    range whose lower bound exceeds its upper bound).
   */
  function ParseSchool(email: string): (r: Option<string>)
    ensures r.Some? <==> Parsable(email)
    ensures r.Some? ==> '.' !in r.value && |r.value| < |email|
  {
    match (FirstIndexOf(email, '@'), FirstIndexOf(email, '.'))
    case (Some(at), Some(dot)) =>
      if at + 1 <= dot then
        assert Parsable(email) by {
          forall j | 0 <= j < |email| && email[j] == '.'
            ensures '@' in email[..j]
          {
            assert email[..dot][at] == '@';
            if j >= dot {
              assert email[..j][at] == '@';
            }
          }
        }
        Some(email[at + 1..dot])
      else
        None
    case _ => None
  }

  /**
    A school that was read splits the address into a part before it without
    either separator, the `@`, the school, the `.`, and the rest.
   */
  lemma SchoolSplitsEmail(email: string) returns (pre: string, post: string)
    requires ParseSchool(email).Some?
    ensures email == pre + ['@'] + ParseSchool(email).value + ['.'] + post
    ensures '@' !in pre && '.' !in pre
  {
    var at := FirstIndexOf(email, '@').value;
    var dot := FirstIndexOf(email, '.').value;
    var school := ParseSchool(email).value;
    assert at < dot && school == email[at + 1..dot];
    pre := email[..at];
    post := email[dot + 1..];
    SplitAround(email, at, dot);
    assert '.' !in pre by {
      assert pre == email[..dot][..at];
    }
  }

  /** A string is its parts before, at, between, at and after two positions. */
  lemma SplitAround(s: string, a: nat, d: nat)
    requires a < d < |s|
    ensures s == s[..a] + [s[a]] + s[a + 1..d] + [s[d]] + s[d + 1..]
  {
    assert s[d..] == [s[d]] + s[d + 1..];
    assert s[a + 1..] == s[a + 1..d] + s[d..];
    assert s[a..] == [s[a]] + s[a + 1..];
    assert s == s[..a] + s[a..];
  }

  /** Building an address from those parts and parsing it gives the school back. */
  lemma ParseRecoversSchool(pre: string, school: string, post: string)
    requires '@' !in pre && '.' !in pre && '.' !in school
    ensures ParseSchool(pre + ['@'] + school + ['.'] + post) == Some(school)
  {
    var email := pre + ['@'] + school + ['.'] + post;
    var at := |pre|;
    var dot := |pre| + 1 + |school|;
    assert email[at] == '@' && email[dot] == '.';
    assert email[..at] == pre;
    assert email[..dot] == pre + ['@'] + school;
    FirstIndexIs(email, '@', at);
    FirstIndexIs(email, '.', dot);
    assert email[at + 1..dot] == school;
  }

  lemma {:induction false} FirstIndexIs(s: string, c: char, i: nat)
    requires i < |s| && s[i] == c && c !in s[..i]
    ensures FirstIndexOf(s, c) == Some(i)
  {
    var r := FirstIndexOf(s, c);
    assert r.Some?;
  }

  /** A `.` right after the first `@` gives the empty school. */
  lemma AtDotGivesEmptySchool(pre: string, post: string)
    requires '@' !in pre && '.' !in pre
    ensures ParseSchool(pre + "@." + post) == Some("")
  {
    assert pre + "@." + post == pre + ['@'] + "" + ['.'] + post;
    ParseRecoversSchool(pre, "", post);
  }

  /** The empty school arises only from a `.` right after the first `@`. */
  lemma EmptySchoolMeansAtDot(email: string)
    requires ParseSchool(email) == Some("")
    ensures exists pre, post :: '@' !in pre && '.' !in pre && email == pre + "@." + post
  {
    var pre, post := SchoolSplitsEmail(email);
    assert email == pre + "@." + post;
  }

  /**
    The school holds an `@` exactly when the address has at least two of
    them before its first `.`.
   */
  lemma AtInSchoolIffTwoAts(email: string)
    requires ParseSchool(email).Some?
    ensures '@' in ParseSchool(email).value <==> multiset(email[..FirstIndexOf(email, '.').value])['@'] >= 2
  {
    var pre, post := SchoolSplitsEmail(email);
    var school := ParseSchool(email).value;
    var dot := |pre| + 1 + |school|;
    assert email[dot] == '.';
    assert email[..dot] == pre + ['@'] + school;
    FirstIndexIs(email, '.', dot);
    assert multiset(email[..dot]) == multiset(pre) + multiset(['@']) + multiset(school);
    assert multiset(pre)['@'] == 0 && multiset(['@'])['@'] == 1;
    assert '@' in school <==> '@' in multiset(school);
  }
}
