/**
 * UserService: owns the registry, creates users (store, then publish) and
 * applies users arriving from the broker (store only).
 */
module Service {
  import opened Wrappers
  import opened Users
  import Registry
  import Sender

  /**
   * The payload createUser publishes: a flat JSON object built by string
   * templating, with no escaping of any field.
   */
  function ProfileJson(id: string, name: string, email: string): (r: string)
    ensures |r| == |id| + |name| + |email| + 30
    ensures r[..7] == "{\"id\":\"" && r[7..7 + |id|] == id
    ensures r[|r| - 2 - |email|..|r| - 2] == email && r[|r| - 2..] == "\"}"
  {
    "{\"id\":\"" + (id + ("\",\"name\":\"" + (name + ("\",\"email\":\"" + (email + "\"}")))))
  }

  /** The position of the first double quote in `s`, or `|s|` when there is none. */
  function FirstQuote(s: string): (n: nat)
    ensures n <= |s|
    ensures n < |s| ==> s[n] == '"'
    ensures forall i :: 0 <= i < n ==> s[i] != '"'
  {
    if s == [] then 0
    else if s[0] == '"' then 0
    else 1 + FirstQuote(s[1..])
  }

  lemma {:induction false} FirstQuoteAfter(a: string, b: string)
    requires '"' !in a
    requires |b| > 0 && b[0] == '"'
    ensures FirstQuote(a + b) == |a|
    decreases |a|
  {
    if a == [] {
      assert a + b == b;
    } else {
      assert (a + b)[0] == a[0];
      assert (a + b)[1..] == a[1..] + b;
      FirstQuoteAfter(a[1..], b);
    }
  }

  /** Two strings that start with a quote, glued after quote-free prefixes, split back uniquely. */
  lemma QuoteFreeCut(a: string, b: string, c: string, d: string)
    requires '"' !in a && '"' !in c
    requires |b| > 0 && b[0] == '"' && |d| > 0 && d[0] == '"'
    requires a + b == c + d
    ensures a == c && b == d
  {
    FirstQuoteAfter(a, b);
    FirstQuoteAfter(c, d);
    assert a == (a + b)[..|a|] && c == (c + d)[..|c|];
    assert b == (a + b)[|a|..] && d == (c + d)[|c|..];
  }

  lemma StripPrefix(p: string, x: string, y: string)
    requires p + x == p + y
    ensures x == y
  {
    assert x == (p + x)[|p|..];
    assert y == (p + y)[|p|..];
  }

  lemma StripSuffix(x: string, y: string, q: string)
    requires x + q == y + q
    ensures x == y
  {
    assert x == (x + q)[..|x|];
    assert y == (y + q)[..|y|];
  }

  /**
   * The payload determines the user, as long as the id and the name hold no
   * double quote (a generated UUID never does; the email may hold anything).
   */
  lemma ProfileJsonInjective(id1: string, name1: string, email1: string, id2: string, name2: string, email2: string)
    requires '"' !in id1 && '"' !in name1 && '"' !in id2 && '"' !in name2
    requires ProfileJson(id1, name1, email1) == ProfileJson(id2, name2, email2)
    ensures id1 == id2 && name1 == name2 && email1 == email2
  {
    var rest1, rest2 := "\",\"email\":\"" + (email1 + "\"}"), "\",\"email\":\"" + (email2 + "\"}");
    var tail1, tail2 := "\",\"name\":\"" + (name1 + rest1), "\",\"name\":\"" + (name2 + rest2);
    StripPrefix("{\"id\":\"", id1 + tail1, id2 + tail2);
    QuoteFreeCut(id1, tail1, id2, tail2);
    StripPrefix("\",\"name\":\"", name1 + rest1, name2 + rest2);
    QuoteFreeCut(name1, rest1, name2, rest2);
    StripPrefix("\",\"email\":\"", email1 + "\"}", email2 + "\"}");
    StripSuffix(email1, email2, "\"}");
  }

  /** Without escaping, two different users can publish the very same payload. */
  lemma ProfileJsonCollision()
    ensures ProfileJson("1", "x\",\"email\":\"y", "z") == ProfileJson("1", "x", "y\",\"email\":\"z")
  {
  }

  class UserService {
    /** The registry: user id to user record. */
    var users: Registry.Store
    /** The publisher createUser hands every new user to. */
    const sender: Sender.UserSender

    ghost predicate Valid()
      reads this
    {
      Registry.Keyed(users)
    }

    constructor (sender: Sender.UserSender)
      ensures Valid() && users == map[] && this.sender == sender
    {
      users := map[];
      this.sender := sender;
    }

    /**
     * Creates a user under `newId` (the UUID the service draws), stores it and
     * only then publishes it. A collision with an existing id overwrites. An
     * exception from the publish escapes, after the store was written.
     */
    method CreateUser(newId: string, name: string, email: string, bridge: Sender.SendResult) returns (r: Result<User>)
      requires Valid()
      modifies this, sender
      ensures Valid()
      ensures users == Registry.Put(old(users), User(newId, name, email))
      ensures sender.sent == old(sender.sent)
        + [Sender.Delivery(Sender.UserProfileChannel, Sender.ProfileCreateMessage(newId, ProfileJson(newId, name, email)))]
      ensures r.Success? <==> bridge.Returned?
      ensures r.Success? ==> r.value == User(newId, name, email)
      ensures r.Failure? ==> bridge.Threw? && r.error == bridge.error
    {
      var user := User(newId, name, email);
      users := users[newId := user];
      var profileData := ProfileJson(newId, name, email);
      var sendOutcome := sender.SendUserProfileCreate(newId, profileData, bridge);
      match sendOutcome
      case Pass =>
        r := Success(user);
      case Fail(e) =>
        r := Failure(e);
    }

    /**
     * A snapshot of the stored records: one element per key, each the record
     * stored under its own id, in no promised order.
     */
    method GetAllUsers() returns (all: seq<User>)
      requires Valid()
      ensures |all| == |users|
      ensures forall i :: 0 <= i < |all| ==> all[i].id in users && users[all[i].id] == all[i]
      ensures forall i, j :: 0 <= i < j < |all| ==> all[i].id != all[j].id
      ensures forall k :: k in users ==> users[k] in all
    {
      all := [];
      var pending := users.Keys;
      while pending != {}
        invariant pending <= users.Keys
        invariant |all| + |pending| == |users|
        invariant forall i :: 0 <= i < |all| ==> all[i].id in users && users[all[i].id] == all[i] && all[i].id !in pending
        invariant forall i, j :: 0 <= i < j < |all| ==> all[i].id != all[j].id
        invariant forall k :: k in users && k !in pending ==> users[k] in all
        decreases pending
      {
        var k :| k in pending;
        all := all + [users[k]];
        pending := pending - {k};
      }
    }

    /** Applies a user that arrived from the broker: store only, never publish. */
    method AddUserFromKafka(user: User)
      requires Valid()
      modifies this
      ensures Valid()
      ensures users == Registry.Put(old(users), user)
      ensures sender.sent == old(sender.sent)
    {
      users := users[user.id := user];
    }
  }

  /**
   * The HTTP round trip on a fresh service: create Alice, then list. The
   * listing is exactly the created record, whether or not the publish threw.
   */
  method CreateThenList(newId: string, bridge: Sender.SendResult) returns (created: Result<User>, all: seq<User>)
    ensures all == [User(newId, "Alice", "alice@x.com")]
    ensures created.Success? <==> bridge.Returned?
    ensures created.Success? ==> created.value == all[0]
  {
    var sender := new Sender.UserSender();
    var service := new UserService(sender);
    created := service.CreateUser(newId, "Alice", "alice@x.com", bridge);
    all := service.GetAllUsers();
    assert service.users == map[newId := User(newId, "Alice", "alice@x.com")];
    assert |all| == 1 && all[0].id in service.users;
  }
}
