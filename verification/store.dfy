/** The persistent records the services read and write, held in an
    in-memory store: users keyed by userId, newsletters and subscriptions
    keyed by their generated id, and the queue of parse jobs. The database's
    unique constraints are the store's validity invariant. */
module Store {
  import opened Common

  datatype ParseStatus = Pending | Success | Failed

  datatype User = User(userId: string, emailAlias: string)

  datatype Newsletter = Newsletter(
    id: string,
    userId: string,
    messageId: string,
    fromEmail: string,
    fromName: Option<string>,
    subject: string,
    receivedAt: int,
    htmlContent: string,
    cleanContent: string,
    textContent: string,
    title: Option<string>,
    author: Option<string>,
    publication: Option<string>,
    excerpt: Option<string>,
    estimatedReadTime: Option<nat>,
    parseStatus: ParseStatus,
    parseError: Option<string>,
    parsedAt: Option<int>,
    isRead: bool,
    isArchived: bool)

  datatype Subscription = Subscription(
    id: string,
    userId: string,
    newsletterName: string,
    senderEmail: string,
    senderDomain: Option<string>,
    emailCount: nat,
    lastReceivedAt: Option<int>,
    subscribedAt: int,
    isActive: bool)

  /** The payload of one `parse-email` job. */
  datatype Job = Job(newsletterId: string, html: string, fromEmail: string, subject: string)

  datatype Store = Store(
    users: map<string, User>,
    newsletters: map<string, Newsletter>,
    subscriptions: map<string, Subscription>,
    queue: seq<Job>)

  /** The outcome of one service call: its result and the store after it. */
  datatype Step<T> = Step(result: Result<T>, store: Store)

  /** Every record sits under its own id, `messageId` is unique among
      newsletters and `(userId, senderEmail)` among subscriptions. */
  predicate Valid(s: Store) {
    && (forall u :: u in s.users ==> s.users[u].userId == u)
    && (forall id :: id in s.newsletters ==> s.newsletters[id].id == id)
    && (forall id :: id in s.subscriptions ==> s.subscriptions[id].id == id)
    && (forall a, b ::
          (a in s.newsletters && b in s.newsletters &&
           s.newsletters[a].messageId == s.newsletters[b].messageId) ==> a == b)
    && SubscriptionsUnique(s.subscriptions)
  }

  /** At most one subscription per `(userId, senderEmail)`. */
  predicate SubscriptionsUnique(m: map<string, Subscription>) {
    forall a, b ::
      (a in m && b in m && m[a].userId == m[b].userId && m[a].senderEmail == m[b].senderEmail) ==> a == b
  }

  const Empty: Store := Store(map[], map[], map[], [])

  /** A newsletter with this `messageId` is stored. */
  predicate HasMessage(s: Store, messageId: string) {
    exists id :: id in s.newsletters && s.newsletters[id].messageId == messageId
  }

  /** A subscription for this `(userId, senderEmail)` is stored. */
  predicate HasSubscription(s: Store, userId: string, senderEmail: string) {
    exists id :: id in s.subscriptions && s.subscriptions[id].userId == userId &&
                 s.subscriptions[id].senderEmail == senderEmail
  }

  // ----------------------------------------------------- ordered listings

  /** `orderBy: { key: 'desc' }` */
  predicate SortedDesc<T>(xs: seq<T>, key: T -> int) {
    forall i, j :: 0 <= i < j < |xs| ==> key(xs[i]) >= key(xs[j])
  }

  /** Insertion into a descending list: the result is a permutation of the
      list with `x` added, and is still descending. */
  function InsertDesc<T>(x: T, xs: seq<T>, key: T -> int): (r: seq<T>)
    requires SortedDesc(xs, key)
    ensures SortedDesc(r, key)
    ensures multiset(r) == multiset(xs) + multiset{x}
    ensures r[0] == x || (|xs| > 0 && r[0] == xs[0])
  {
    if |xs| == 0 || key(x) >= key(xs[0]) then [x] + xs
    else
      var rest := InsertDesc(x, xs[1..], key);
      assert xs == [xs[0]] + xs[1..];
      assert key(xs[0]) >= key(rest[0]);
      [xs[0]] + rest
  }

  /** The keys of `m` whose record passes `keep`. */
  function Selected<V>(m: map<string, V>, keep: V -> bool): set<string> {
    set k | k in m && keep(m[k])
  }

  /** No two keys hold the same record. */
  ghost predicate Injective<V>(m: map<string, V>) {
    forall a, b :: a in m && b in m && m[a] == m[b] ==> a == b
  }

  /** `findMany({ where, orderBy: { key: 'desc' } })`: every record passing
      the filter, exactly once each, in descending key order. The order of
      records with equal keys is left to the database. */
  method ListSorted<V>(m: map<string, V>, keep: V -> bool, key: V -> int) returns (rows: seq<V>)
    ensures SortedDesc(rows, key)
    ensures forall v :: v in rows <==> exists k :: k in m && keep(m[k]) && m[k] == v
    ensures |rows| == |Selected(m, keep)|
    ensures Injective(m) ==> forall v :: multiset(rows)[v] <= 1
  {
    var todo := m.Keys;
    ghost var done: set<string> := {};
    rows := [];
    while todo != {}
      invariant todo <= m.Keys
      invariant forall k :: k in done <==> k in m && k !in todo && keep(m[k])
      invariant SortedDesc(rows, key)
      invariant forall v :: v in rows <==> exists k :: k in done && m[k] == v
      invariant |rows| == |done|
      invariant Injective(m) ==> forall v :: multiset(rows)[v] <= 1
      decreases |todo|
    {
      var k :| k in todo;
      if keep(m[k]) {
        var previous := rows;
        rows := InsertDesc(m[k], rows, key);
        forall v
          ensures v in rows <==> v == m[k] || v in previous
        {
          assert (v in rows) == (v in multiset(rows));
          assert (v in previous) == (v in multiset(previous));
        }
        assert |rows| == |multiset(rows)| == |multiset(previous)| + 1;
        assert k !in done;
        assert Injective(m) ==> m[k] !in previous;
        done := done + {k};
      }
      todo := todo - {k};
    }
    assert done == Selected(m, keep);
  }
}
