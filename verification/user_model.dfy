/**
 The User document (src/model/users.js) and the character-level rules its
 username obeys: the schema stores usernames lowercased, 3 to 20 characters,
 drawn from `[a-z0-9_]`.
 */
module UserModel {
  import opened Results

  type Id = string

  /** The two subscription states the payment handlers write. */
  datatype SubscriptionStatus = Active | Cancelled

  /** Dates are epoch milliseconds. */
  datatype Subscription = Subscription(id: string, status: SubscriptionStatus, planId: string, startDate: int, endDate: int)

  /**
   A stored account. `password` is the stored hash, "" for Google-only
   accounts; `googleId` is "" for password accounts.
   */
  datatype User = User(
    id: Id,
    username: string,
    name: string,
    email: string,
    password: string,
    googleId: string,
    credits: int,
    subscription: Option<Subscription>)

  const DefaultCredits: int := 0

  /** A new account with the schema defaults: no credits, no subscription. */
  function NewUser(id: Id, username: string, name: string, email: string, password: string, googleId: string): (u: User)
    ensures u.credits == DefaultCredits && u.subscription.None?
    ensures u.id == id && u.username == username && u.email == email && u.password == password
  {
    User(id, username, name, email, password, googleId, DefaultCredits, None)
  }

  /** The character class `[a-z0-9_]`. */
  predicate InLowerClass(c: char)
  {
    ('a' <= c <= 'z') || ('0' <= c <= '9') || c == '_'
  }

  /** ASCII letters of either case, digits and underscore. */
  predicate IsUsernameChar(c: char)
  {
    ('a' <= c <= 'z') || ('A' <= c <= 'Z') || ('0' <= c <= '9') || c == '_'
  }

  /** `toLowerCase` on the ASCII range; other characters are left as they are. */
  function LowerChar(c: char): char
  {
    if 'A' <= c <= 'Z' then (c as int + 32) as char else c
  }

  function Lower(s: string): (r: string)
    ensures |r| == |s|
    ensures forall i :: 0 <= i < |s| ==> r[i] == LowerChar(s[i])
  {
    seq(|s|, i requires 0 <= i < |s| => LowerChar(s[i]))
  }

  /**
   `/^[a-z0-9_]+$/` against `s`, with the `i` flag when `ignoreCase`: one
   or more characters, each in the class once case is folded.
   */
  predicate MatchesClassPlus(s: string, ignoreCase: bool)
    decreases |s|
  {
    |s| >= 1
    && InLowerClass(if ignoreCase then LowerChar(s[0]) else s[0])
    && (|s| == 1 || MatchesClassPlus(s[1..], ignoreCase))
  }

  /**
   The regular expression accepts exactly the non-empty strings of class
   characters: any case under the `i` flag, lower case only without it.
   */
  lemma {:induction false} MatchesClassPlusMeaning(s: string, ignoreCase: bool)
    ensures MatchesClassPlus(s, ignoreCase) <==>
            |s| >= 1 && forall i :: 0 <= i < |s| ==>
              (if ignoreCase then IsUsernameChar(s[i]) else InLowerClass(s[i]))
    decreases |s|
  {
    var c := if |s| >= 1 then s[0] else 'a';
    assert InLowerClass(if ignoreCase then LowerChar(c) else c) <==>
           (if ignoreCase then IsUsernameChar(c) else InLowerClass(c));
    if |s| > 1 {
      MatchesClassPlusMeaning(s[1..], ignoreCase);
      assert forall i :: 1 <= i < |s| ==> s[i] == s[1..][i - 1];
    }
  }

  /** The schema's username rules, checked on the lowercased value. */
  predicate UsernameSchemaOk(u: string)
  {
    3 <= |u| <= 20 && MatchesClassPlus(u, false)
  }

  /** The schema's validators: the username rules and the required name and email. */
  predicate SchemaValid(u: User)
  {
    UsernameSchemaOk(u.username) && u.name != "" && u.email != ""
  }

  /** A username the schema accepts is already lower case. */
  lemma SchemaUsernameIsLower(u: string)
    requires UsernameSchemaOk(u)
    ensures Lower(u) == u
  {
    MatchesClassPlusMeaning(u, false);
  }

  /** Lowercasing is idempotent, so the schema's `lowercase` setter may run twice. */
  lemma LowerIdempotent(s: string)
    ensures Lower(Lower(s)) == Lower(s)
  {
  }
}
