/**
 * The backend helper module: the membership status constants and the
 * `checkIfTokenExists` middleware, which splits the `authorization` header
 * on single spaces and accepts it when it has exactly two parts.
 */
module Helpers {
  import opened Common

  /** The four membership states of a (group, user) row. */
  datatype Status = InviteAccepted | InviteRejected | InviteSent | LeftGroup

  /** The string stored in the database for each state. */
  function StatusName(s: Status): (r: string) {
    match s
    case InviteAccepted => "INVITE_ACCEPTED"
    case InviteRejected => "INVITE_REJECTED"
    case InviteSent => "INVITE_SENT"
    case LeftGroup => "LEFT_GROUP"
  }

  /** The values of the Member table's `status` ENUM column, in declaration order. */
  const MemberStatusEnum: seq<string> := ["INVITE_SENT", "INVITE_REJECTED", "INVITE_ACCEPTED", "LEFT_GROUP"]

  /** The constants name four different states, and they are exactly the ENUM's values. */
  lemma StatusNamesMatchEnum()
    ensures forall a: Status, b: Status :: StatusName(a) == StatusName(b) ==> a == b
    ensures forall s: Status :: StatusName(s) in MemberStatusEnum
    ensures forall v :: v in MemberStatusEnum ==> exists s: Status :: StatusName(s) == v
  {
    assert StatusName(InviteSent) == MemberStatusEnum[0];
    assert StatusName(InviteRejected) == MemberStatusEnum[1];
    assert StatusName(InviteAccepted) == MemberStatusEnum[2];
    assert StatusName(LeftGroup) == MemberStatusEnum[3];
  }

  /** Number of occurrences of `ch` in `s`. */
  function CountOf(s: string, ch: char): nat {
    if s == [] then 0 else (if s[0] == ch then 1 else 0) + CountOf(s[1..], ch)
  }

  lemma {:induction false} CountOfConcat(a: string, b: string, ch: char)
    ensures CountOf(a + b, ch) == CountOf(a, ch) + CountOf(b, ch)
  {
    if a != [] {
      assert (a + b)[0] == a[0];
      assert (a + b)[1..] == a[1..] + b;
      CountOfConcat(a[1..], b, ch);
    } else {
      assert a + b == b;
    }
  }

  /** Joins the parts with one separator between neighbours (JavaScript's `join`). */
  function Join(parts: seq<string>, sep: char): string {
    if |parts| == 0 then ""
    else if |parts| == 1 then parts[0]
    else parts[0] + [sep] + Join(parts[1..], sep)
  }

  /**
   * JavaScript's `String.prototype.split` with a one-character separator:
   * the pieces between separators, empty pieces included.
   */
  function Split(s: string, sep: char): (r: seq<string>)
    ensures |r| == CountOf(s, sep) + 1
    ensures forall i :: 0 <= i < |r| ==> sep !in r[i]
    ensures Join(r, sep) == s
  {
    if s == [] then [""]
    else
      var rest := Split(s[1..], sep);
      if s[0] == sep then
        assert Join([""] + rest, sep) == [sep] + Join(rest, sep) by {
          assert ([""] + rest)[1..] == rest;
        }
        [""] + rest
      else
        var r := [[s[0]] + rest[0]] + rest[1..];
        assert Join(r, sep) == [s[0]] + Join(rest, sep) by {
          if |rest| > 1 {
            assert r[1..] == rest[1..];
          }
        }
        r
  }

  lemma {:induction false} SplitWithoutSeparator(s: string, sep: char)
    requires sep !in s
    ensures Split(s, sep) == [s]
  {
    if s != [] {
      assert sep !in s[1..];
      SplitWithoutSeparator(s[1..], sep);
    }
  }

  /** Splitting `a + sep + b` on `sep`, when neither side contains it, gives back the two sides. */
  lemma {:induction false} SplitAroundSeparator(a: string, b: string, sep: char)
    requires sep !in a && sep !in b
    ensures Split(a + [sep] + b, sep) == [a, b]
  {
    var s := a + [sep] + b;
    if a == [] {
      assert s[1..] == b;
      SplitWithoutSeparator(b, sep);
    } else {
      assert s[1..] == a[1..] + [sep] + b;
      assert sep !in a[1..];
      SplitAroundSeparator(a[1..], b, sep);
      assert [a[0]] + a[1..] == a;
    }
  }

  /** The outcome of `checkIfTokenExists`: go on with `req.token` set, or answer 401. */
  datatype AuthResult = Proceed(token: string) | Unauthorized(status: int, errorMessage: string)

  const LoginMessage := "Please login to continue"

  /** `header` is the `authorization` header, or None when the request has none. */
  function CheckIfTokenExists(header: Option<string>): (r: AuthResult)
    ensures r.Proceed? <==> header.Some? && CountOf(header.value, ' ') == 1
    ensures r.Unauthorized? ==> r == Unauthorized(401, LoginMessage)
    ensures r.Proceed? ==>
              && ' ' !in r.token
              && exists scheme :: ' ' !in scheme && header.value == scheme + " " + r.token
  {
    if header.None? then Unauthorized(401, LoginMessage)
    else
      var parts := Split(header.value, ' ');
      if |parts| == 2 then
        assert header.value == parts[0] + " " + parts[1] by {
          assert Join(parts[1..], ' ') == parts[1];
          assert " " == [' '];
        }
        Proceed(parts[1])
      else Unauthorized(401, LoginMessage)
  }

  /** The scheme word is never inspected: any space-free word followed by one space and a space-free token passes. */
  lemma AnySchemeProceeds(scheme: string, token: string)
    requires ' ' !in scheme && ' ' !in token
    ensures CheckIfTokenExists(Some(scheme + " " + token)) == Proceed(token)
  {
    SplitAroundSeparator(scheme, token, ' ');
  }
}
