/** The table of proxy users: at most ten names with their passwords, in the order they
    were added, and the text that lists the names.

    A string here is a C string without its terminator. */
module Users {
  import opened Wrappers

  const MAX_USERS: nat := 10
  const MAX_LEN: nat := 255

  datatype User = User(name: string, pass: string)

  predicate IsCString(s: string) {
    '\0' !in s
  }

  // ----- what the table is

  predicate ValidUser(u: User) {
    && IsCString(u.name) && IsCString(u.pass)
    && 1 <= |u.name| <= MAX_LEN - 1 && 1 <= |u.pass| <= MAX_LEN - 1 && ':' !in u.pass
  }

  predicate ValidUsers(us: seq<User>) {
    && |us| <= MAX_USERS
    && (forall i :: 0 <= i < |us| ==> ValidUser(us[i]))
    && (forall i, j :: 0 <= i < j < |us| ==> us[i].name != us[j].name)
  }

  predicate HasName(us: seq<User>, name: string) {
    exists i :: 0 <= i < |us| && us[i].name == name
  }

  /** The table as a map from names to passwords. */
  function AsMap(us: seq<User>): map<string, string> {
    if us == [] then map[] else AsMap(us[..|us| - 1])[us[|us| - 1].name := us[|us| - 1].pass]
  }

  /** The answer to an addition, the checks in the order they are made. */
  function AddAnswer(us: seq<User>, u: User): int {
    if |us| == MAX_USERS then -2
    else if u.name == "" || u.pass == "" then -1
    else if HasName(us, u.name) then -3
    else if ':' in u.pass then -4
    else if |u.name| + 1 > MAX_LEN || |u.pass| + 1 > MAX_LEN then -4
    else 0
  }

  /** The table without the user of that name, the others in their order. */
  function Without(us: seq<User>, name: string): seq<User> {
    if us == [] then []
    else if us[0].name == name then us[1..]
    else [us[0]] + Without(us[1..], name)
  }

  // ----- the table is an ordered finite map

  lemma HasNameSnoc(us: seq<User>, u: User, name: string)
    ensures HasName(us + [u], name) <==> HasName(us, name) || u.name == name
  {
    var all := us + [u];
    if HasName(us, name) {
      var i :| 0 <= i < |us| && us[i].name == name;
      assert all[i].name == name;
    }
    assert all[|us|] == u;
  }

  lemma {:induction false} KeysAreNames(us: seq<User>, name: string)
    ensures name in AsMap(us) <==> HasName(us, name)
    decreases |us|
  {
    if us != [] {
      var n := |us| - 1;
      KeysAreNames(us[..n], name);
      HasNameSnoc(us[..n], us[n], name);
      assert us == us[..n] + [us[n]];
    }
  }

  lemma {:induction false} MapHasSize(us: seq<User>)
    requires ValidUsers(us)
    ensures |AsMap(us)| == |us|
    decreases |us|
  {
    if us != [] {
      var n := |us| - 1;
      MapHasSize(us[..n]);
      LastIsNew(us);
      KeysAreNames(us[..n], us[n].name);
    }
  }

  lemma LastIsNew(us: seq<User>)
    requires us != [] && ValidUsers(us)
    ensures ValidUsers(us[..|us| - 1]) && !HasName(us[..|us| - 1], us[|us| - 1].name)
  {
  }

  lemma MemberHasName(us: seq<User>, u: User)
    requires u in us
    ensures HasName(us, u.name)
  {
  }

  /** The map of the table holds exactly its pairs. */
  lemma {:induction false} MapLooksUp(us: seq<User>, name: string, pass: string)
    requires ValidUsers(us)
    ensures User(name, pass) in us <==> name in AsMap(us) && AsMap(us)[name] == pass
    decreases |us|
  {
    if us != [] {
      var before, last := us[..|us| - 1], us[|us| - 1];
      assert us == before + [last];
      LastIsNew(us);
      MapLooksUp(before, name, pass);
      KeysAreNames(before, last.name);
      hide ValidUsers, HasName;
      assert AsMap(us) == AsMap(before)[last.name := last.pass];
      if User(name, pass) in before {
        MemberHasName(before, User(name, pass));
        assert name != last.name;
      }
    }
  }

  /** An accepted addition appends the user and keeps the table valid; it is accepted
      exactly when there is room and the user is valid and new. */
  lemma AddKeeps(us: seq<User>, u: User)
    requires ValidUsers(us) && IsCString(u.name) && IsCString(u.pass)
    ensures AddAnswer(us, u) == 0 <==> |us| < MAX_USERS && ValidUser(u) && !HasName(us, u.name)
    ensures AddAnswer(us, u) == 0 ==> ValidUsers(us + [u]) && AsMap(us + [u]) == AsMap(us)[u.name := u.pass]
  {
    assert (us + [u])[..|us|] == us;
    if AddAnswer(us, u) == 0 {
      forall i, j | 0 <= i < j < |us + [u]|
        ensures (us + [u])[i].name != (us + [u])[j].name
      {
        if j == |us| { assert us[i].name != u.name; }
      }
    }
  }

  /** When each answer is given: the first fault in the order of the checks decides. */
  lemma AnswersExactly(us: seq<User>, u: User)
    requires ValidUsers(us) && IsCString(u.name) && IsCString(u.pass)
    ensures var answer := AddAnswer(us, u);
            var room, empty, known := |us| < 10, |u.name| == 0 || |u.pass| == 0, exists v :: v in us && v.name == u.name;
            && (answer == -2 <==> !room)
            && (answer == -1 <==> room && empty)
            && (answer == -3 <==> room && !empty && known)
            && (answer == -4 <==> room && !empty && !known && (':' in u.pass || |u.name| > 254 || |u.pass| > 254))
            && (answer == 0 <==> room && !empty && !known && ':' !in u.pass && |u.name| <= 254 && |u.pass| <= 254)
  {
    assert u.name == "" <==> |u.name| == 0;
    assert u.pass == "" <==> |u.pass| == 0;
    if v :| v in us && v.name == u.name { MemberHasName(us, v); }
  }

  lemma {:induction false} WithoutAt(us: seq<User>, name: string, k: nat)
    requires k < |us| && us[k].name == name
    requires forall i :: 0 <= i < k ==> us[i].name != name
    ensures Without(us, name) == us[..k] + us[k + 1..]
    decreases |us|
  {
    if k > 0 {
      WithoutAt(us[1..], name, k - 1);
      assert us[..k] + us[k + 1..] == [us[0]] + (us[1..][..k - 1] + us[1..][k..]);
    }
  }

  lemma {:induction false} WithoutAbsent(us: seq<User>, name: string)
    requires !HasName(us, name)
    ensures Without(us, name) == us
    decreases |us|
  {
    if us != [] {
      assert us[0].name != name;
      forall i | 0 <= i < |us[1..]|
        ensures us[1..][i].name != name
      {
        assert us[i + 1].name != name;
      }
      WithoutAbsent(us[1..], name);
    }
  }

  lemma CutStaysValid(us: seq<User>, k: nat)
    requires ValidUsers(us) && k < |us|
    ensures ValidUsers(us[..k] + us[k + 1..])
    ensures forall u :: u in us[..k] + us[k + 1..] <==> u in us && u.name != us[k].name
  {
    var vs := us[..k] + us[k + 1..];
    assert forall i :: 0 <= i < |vs| ==> vs[i] == if i < k then us[i] else us[i + 1];
    forall u | u in us && u.name != us[k].name
      ensures u in vs
    {
      var i :| 0 <= i < |us| && us[i] == u;
      assert vs[if i < k then i else i - 1] == u;
    }
  }

  /** A deletion removes one name from the map and keeps the table valid. */
  lemma DeleteKeeps(us: seq<User>, name: string)
    requires ValidUsers(us)
    ensures ValidUsers(Without(us, name))
    ensures AsMap(Without(us, name)) == AsMap(us) - {name}
    ensures |Without(us, name)| == |us| - if HasName(us, name) then 1 else 0
  {
    hide Without;
    if HasName(us, name) {
      var k :| 0 <= k < |us| && us[k].name == name;
      WithoutAt(us, name, k);
      CutStaysValid(us, k);
      SameMap(us, Without(us, name), name);
    } else {
      WithoutAbsent(us, name);
      KeysAreNames(us, name);
    }
  }

  lemma SameMap(us: seq<User>, vs: seq<User>, name: string)
    requires ValidUsers(us) && ValidUsers(vs)
    requires forall u :: u in vs <==> u in us && u.name != name
    ensures AsMap(vs) == AsMap(us) - {name}
  {
    forall n
      ensures n in AsMap(vs) <==> n in AsMap(us) && n != name
      ensures n in AsMap(vs) ==> AsMap(vs)[n] == AsMap(us)[n]
    {
      hide AsMap;
      if n in AsMap(vs) {
        MapLooksUp(vs, n, AsMap(vs)[n]);
        MapLooksUp(us, n, AsMap(vs)[n]);
      }
      if n in AsMap(us) && n != name {
        MapLooksUp(us, n, AsMap(us)[n]);
        MapLooksUp(vs, n, AsMap(us)[n]);
      }
    }
  }

  // ----- the list of names as text

  function Names(us: seq<User>): seq<string> {
    seq(|us|, i requires 0 <= i < |us| => us[i].name)
  }

  /** The names with single spaces between them. */
  function Joined(names: seq<string>): string {
    if names == [] then "" else names[0] + (if |names| == 1 then "" else " " + Joined(names[1..]))
  }

  function Listing(names: seq<string>): string {
    Joined(names) + "\n"
  }

  /** What repeated `strtok(text, " ")` returns, `word` being the token under way. */
  function Tokens(text: string, word: string): seq<string> {
    if text == "" then if word == "" then [] else [word]
    else if text[0] == ' ' then (if word == "" then [] else [word]) + Tokens(text[1..], "")
    else Tokens(text[1..], word + [text[0]])
  }

  lemma {:induction false} TokenGrows(w: string, rest: string, word: string)
    requires ' ' !in w
    ensures Tokens(w + rest, word) == Tokens(rest, word + w)
    decreases |w|
  {
    if w == "" {
      assert w + rest == rest && word + w == word;
    } else {
      assert (w + rest)[0] == w[0] && (w + rest)[1..] == w[1..] + rest;
      TokenGrows(w[1..], rest, word + [w[0]]);
      assert word + [w[0]] + w[1..] == word + w;
    }
  }

  lemma {:induction false} TokensHaveNoSpace(text: string, word: string)
    requires ' ' !in word
    ensures forall i :: 0 <= i < |Tokens(text, word)| ==> ' ' !in Tokens(text, word)[i]
    decreases |text|
  {
    if text != "" {
      TokensHaveNoSpace(text[1..], if text[0] == ' ' then "" else word + [text[0]]);
    }
  }

  /** The names as the client prints them: the last one still ends its line. */
  function AsPrinted(names: seq<string>): seq<string>
    requires names != []
  {
    names[..|names| - 1] + [names[|names| - 1] + "\n"]
  }

  lemma TokenThenSpace(first: string, rest: string)
    requires first != "" && ' ' !in first
    ensures Tokens(first + (" " + rest), "") == [first] + Tokens(rest, "")
  {
    TokenGrows(first, " " + rest, "");
    assert "" + first == first;
    assert (" " + rest)[1..] == rest;
  }

  lemma TokenThenNewline(last: string)
    requires ' ' !in last
    ensures Tokens(last + "\n", "") == [last + "\n"]
  {
    var all := last + "\n";
    TokenGrows(all, "", "");
    assert all + "" == all && "" + all == all;
  }

  lemma {:induction false} ListingSplits(names: seq<string>)
    requires names != [] && forall i :: 0 <= i < |names| ==> names[i] != "" && ' ' !in names[i]
    ensures Tokens(Listing(names), "") == AsPrinted(names)
    decreases |names|
  {
    hide Tokens;
    if |names| == 1 {
      assert Joined(names) == names[0] by { assert names[0] + "" == names[0]; }
      TokenThenNewline(names[0]);
    } else {
      var rest := names[1..];
      assert Listing(names) == names[0] + (" " + Listing(rest));
      TokenThenSpace(names[0], Listing(rest));
      ListingSplits(rest);
      assert AsPrinted(names) == [names[0]] + AsPrinted(rest);
    }
  }

  /** Splitting the listing on spaces, as the client does, gives back the names in order
      exactly when no name contains a space. */
  lemma ListingRoundTrip(names: seq<string>)
    requires names != [] && forall i :: 0 <= i < |names| ==> names[i] != ""
    ensures Tokens(Listing(names), "") == AsPrinted(names) <==> forall i :: 0 <= i < |names| ==> ' ' !in names[i]
  {
    var tokens := Tokens(Listing(names), "");
    if forall i :: 0 <= i < |names| ==> ' ' !in names[i] {
      ListingSplits(names);
    } else {
      var i :| 0 <= i < |names| && ' ' in names[i];
      TokensHaveNoSpace(Listing(names), "");
      var printed := AsPrinted(names);
      assert names[i] <= printed[i];
      assert ' ' in printed[i];
      assert i < |tokens| ==> ' ' !in tokens[i];
    }
  }

  /** The same of a table: the client prints the name of each user, in the order of the table,
      iff no name contains a space. */
  lemma TableRoundTrip(us: seq<User>)
    requires ValidUsers(us) && us != []
    ensures var tokens := Tokens(Listing(Names(us)), "");
            (|tokens| == |us| && forall i :: 0 <= i < |us| ==> tokens[i] == us[i].name + if i == |us| - 1 then "\n" else "")
            <==> forall i :: 0 <= i < |us| ==> ' ' !in us[i].name
  {
    var names := Names(us);
    assert |names| == |us| && forall i :: 0 <= i < |us| ==> names[i] == us[i].name;
    ListingRoundTrip(names);
    hide Tokens, Listing;
    var tokens, printed := Tokens(Listing(names), ""), AsPrinted(names);
    assert forall i :: 0 <= i < |us| ==> printed[i] == us[i].name + if i == |us| - 1 then "\n" else "";
    if |tokens| == |us| && forall i :: 0 <= i < |us| ==> tokens[i] == us[i].name + if i == |us| - 1 then "\n" else "" {
      assert tokens == printed;
    }
  }

  function TotalLength(names: seq<string>): nat {
    if names == [] then 0 else |names[0]| + TotalLength(names[1..])
  }

  lemma {:induction false} JoinedLength(names: seq<string>)
    ensures |Joined(names)| == TotalLength(names) + if names == [] then 0 else |names| - 1
    decreases |names|
  {
    if |names| > 1 { JoinedLength(names[1..]); } else if |names| == 1 { assert names[1..] == []; }
  }

  lemma {:induction false} TotalBound(names: seq<string>, max: nat)
    requires forall i :: 0 <= i < |names| ==> |names[i]| <= max
    ensures TotalLength(names) <= max * |names|
    ensures TotalLength(names) == max * |names| <==> forall i :: 0 <= i < |names| ==> |names[i]| == max
    decreases |names|
  {
    if names != [] {
      TotalBound(names[1..], max);
      assert max * |names| == max + max * |names[1..]|;
      assert forall i :: 0 < i < |names| ==> names[i] == names[1..][i - 1];
    }
  }

  /** The listing has at most 255 characters per user; with its terminator it fits the
      255 bytes per user that are allocated exactly when some name is shorter than 254. */
  lemma ListingFits(us: seq<User>)
    requires ValidUsers(us) && us != []
    ensures |Listing(Names(us))| <= MAX_LEN * |us|
    ensures |Listing(Names(us))| + 1 <= MAX_LEN * |us| <==> exists i :: 0 <= i < |us| && |us[i].name| < MAX_LEN - 1
  {
    var names := Names(us);
    JoinedLength(names);
    TotalBound(names, MAX_LEN - 1);
    assert forall i :: 0 <= i < |us| ==> names[i] == us[i].name;
  }

  // ----- the table in place

  class UserTable {
    var users: array<User>   // empty until the first user is added
    var total: nat

    ghost predicate Valid()
      reads this, users
    {
      && total <= users.Length && (users.Length == 0 || users.Length == MAX_USERS)
      && ValidUsers(Contents())
    }

    ghost function Contents(): seq<User>
      requires total <= users.Length
      reads this, users
    {
      users[..total]
    }

    constructor ()
      ensures Valid() && Contents() == [] && fresh(users)
    {
      users := new User[0];
      total := 0;
    }

    method Find(name: string) returns (i: nat)
      requires total <= users.Length
      ensures i <= total && (i < total ==> users[i].name == name)
      ensures forall k :: 0 <= k < i ==> users[k].name != name
    {
      i := 0;
      while i < total
        invariant i <= total && forall k :: 0 <= k < i ==> users[k].name != name
      {
        if users[i].name == name {
          return;
        }
        i := i + 1;
      }
    }

    method AddUser(name: string, pass: string) returns (answer: int)
      requires Valid() && IsCString(name) && IsCString(pass)
      modifies this, users
      ensures Valid() && (users == old(users) || fresh(users))
      ensures answer == AddAnswer(old(Contents()), User(name, pass))
      ensures Contents() == if answer == 0 then old(Contents()) + [User(name, pass)] else old(Contents())
    {
      ghost var us := Contents();
      if total == MAX_USERS {
        return -2;
      }
      if name == "" || pass == "" {
        return -1;
      }
      if users.Length == 0 {
        users := new User[MAX_USERS](_ => User("", ""));
      }
      assert Contents() == us;
      var i := Find(name);
      if i < total {
        assert us[i].name == name;
        return -3;
      }
      assert !HasName(us, name);
      var j := 0;
      while j < |pass|
        invariant j <= |pass| && ':' !in pass[..j]
      {
        if pass[j] == ':' {
          return -4;
        }
        j := j + 1;
      }
      assert pass[..j] == pass;
      if |name| + 1 > MAX_LEN || |pass| + 1 > MAX_LEN {
        return -4;
      }
      AddKeeps(us, User(name, pass));
      users[total] := User(name, pass);
      total := total + 1;
      assert Contents() == us + [User(name, pass)];
      answer := 0;
    }

    method DeleteUser(name: string) returns (answer: int)
      requires Valid()
      modifies this`total, users
      ensures Valid()
      ensures answer == if HasName(old(Contents()), name) then 0 else -2
      ensures answer == 0 ==> exists k :: 0 <= k < |old(Contents())| && old(Contents())[k].name == name &&
                                Contents() == old(Contents())[..k] + old(Contents())[k + 1..]
      ensures answer != 0 ==> answer == -2 && Contents() == old(Contents())
      ensures Contents() == Without(old(Contents()), name)
    {
      ghost var us := Contents();
      if total == 0 {
        return -2;
      }
      var i := Find(name);
      if i == total {
        WithoutAbsent(us, name);
        return -2;
      }
      assert us[i].name == name;
      assert HasName(us, name);
      WithoutAt(us, name, i);
      DeleteKeeps(us, name);
      hide Without, AsMap, HasName, ValidUsers;
      ShiftDown(i);
      total := total - 1;
      answer := 0;
    }

    /** Moves every user behind slot `i` one slot forward. */
    method ShiftDown(i: nat)
      requires i < total <= users.Length
      modifies users
      ensures users[..total - 1] == old(users[..total])[..i] + old(users[..total])[i + 1..]
    {
      var j := i;
      while j < total - 1
        invariant i <= j <= total - 1
        invariant forall k :: 0 <= k < i ==> users[k] == old(users[k])
        invariant forall k :: i <= k < j ==> users[k] == old(users[k + 1])
        invariant forall k :: j <= k < total ==> users[k] == old(users[k])
      {
        users[j] := users[j + 1];
        j := j + 1;
      }
    }

    method CanLogin(name: string, pass: string) returns (yes: bool)
      requires Valid()
      ensures yes <==> name in AsMap(Contents()) && AsMap(Contents())[name] == pass
    {
      MapLooksUp(Contents(), name, pass);
      var i := 0;
      while i < total
        invariant i <= total && User(name, pass) !in users[..i]
      {
        if users[i].name == name && users[i].pass == pass {
          assert users[i] in users[..total];
          return true;
        }
        i := i + 1;
      }
      yes := false;
    }

    /** The listing, or none for an empty table. */
    method GetUsers() returns (text: Option<string>)
      requires Valid()
      ensures text == if Contents() == [] then None else Some(Listing(Names(Contents())))
    {
      if total == 0 {
        return None;
      }
      ghost var names := Names(Contents());
      var s := "";
      var i := 0;
      while i < total
        invariant i <= total
        invariant s + Joined(names[i..]) == Joined(names)
      {
        ghost var s0 := s;
        assert names[i..][1..] == names[i + 1..];
        assert users[i].name == names[i];
        s := s + users[i].name;
        if i < total - 1 {
          s := s + " ";
          assert s + Joined(names[i + 1..]) == s0 + (names[i] + (" " + Joined(names[i + 1..])));
        }
        i := i + 1;
      }
      assert names[i..] == [] && s + "" == s;
      text := Some(s + "\n");
    }
  }
}
