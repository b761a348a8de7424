/** Assembling a policy system, and blaming a rejection on the user whose policy caused it
    (app/backend/src/bart/assembly.ts). Rows are read twice, and may change in between. */
module Assembly {
  import opened Lex
  import opened Munch
  import opened Attrs
  import opened Emitter
  import opened Numerals
  import Closure

  datatype Row = Row(attrs: Attrs, rules: seq<string>)

  /** What one read of the users table finds under an id. */
  type Rows = string -> Option<Row>

  /** A user that vanished still gets an empty policy. */
  function UserOf(id: string, row: Option<Row>): User {
    match row
    case None => User(id, [], [])
    case Some(row) => User(id, row.attrs, row.rules)
  }

  function TextOf(id: string, rows: Rows): Result<string, EmitError> { EmitPolicy(UserOf(id, rows(id))) }

  /** Each text is the policy of the user it is filed under. */
  ghost predicate Owned(owners: map<string, string>) {
    forall text :: text in owners ==> exists user: User :: user.id == owners[text] && EmitPolicy(user) == Ok(text)
  }

  ghost predicate IsPolicyOf(text: string, id: string) { exists user: User :: user.id == id && EmitPolicy(user) == Ok(text) }

  /** Party `k` of the system is described by policy `k`. */
  ghost predicate Aligned(parties: seq<string>, policies: seq<string>) {
    |policies| == |parties| && forall k :: 0 <= k < |parties| ==> IsPolicyOf(policies[k], parties[k])
  }

  const LOCATION_PREFIX := "policy "

  /** The number in `policy N`, as `/^policy (\d+)$/` reads it. */
  function LocationNumber(location: Option<string>): Option<nat> {
    if location.None? || !(LOCATION_PREFIX <= location.value) then None
    else
      var digits := location.value[|LOCATION_PREFIX|..];
      if IsWhole(digits) then Some(DigitsValue(digits)) else None
  }

  function UserForLocation(location: Option<string>, texts: seq<string>, owners: map<string, string>): Option<string> {
    match LocationNumber(location)
    case None => None
    case Some(n) =>
      if n == 0 || n > |texts| || texts[n - 1] !in owners then None else Some(owners[texts[n - 1]])
  }

  /** The location names policy `n`: `policy `, and a numeral of `n`. */
  ghost predicate NamesPolicy(location: Option<string>, n: nat) {
    exists k: nat :: location == Some("policy " + Padded(k, n))
  }

  /** A number is read from a location exactly when the location names it. */
  lemma LocationExact(location: Option<string>, n: nat)
    ensures LocationNumber(location) == Some(n) <==> NamesPolicy(location, n)
  {
    hide DigitsValue, Padded, IsWhole;
    if LocationNumber(location) == Some(n) {
      var digits := location.value[|LOCATION_PREFIX|..];
      var k := PaddedOf(digits);
      assert location.value == "policy " + Padded(k, n);
    }
    if k: nat :| location == Some("policy " + Padded(k, n)) {
      ValueOfPadded(k, n);
      assert location.value[|LOCATION_PREFIX|..] == Padded(k, n);
    }
  }

  /** Whatever was edited between the reads, blame falls on nobody or on the right party: that of the number
      in the location, counted from one. A location of any other form blames nobody. */
  lemma BlameNeverWrong(location: Option<string>, parties: seq<string>, policies: seq<string>, owners: map<string, string>)
    requires Owned(owners) && Aligned(parties, policies)
    ensures var blamed := UserForLocation(location, policies, owners);
            blamed.Some? ==> exists n: nat :: NamesPolicy(location, n) && 0 < n <= |parties| && blamed.value == parties[n - 1]
  {
    hide EmitPolicy, LocationNumber, NamesPolicy;
    var blamed := UserForLocation(location, policies, owners);
    if blamed.Some? {
      var n := LocationNumber(location).value;
      LocationExact(location, n);
      var k := n - 1;
      assert IsPolicyOf(policies[k], parties[k]);
      var x: User :| x.id == parties[k] && EmitPolicy(x) == Ok(policies[k]);
      var y: User :| y.id == owners[policies[k]] && EmitPolicy(y) == Ok(policies[k]);
      PolicyInjective(x, y);
    }
  }

  /** A location names one policy at most. */
  lemma NamesOne(location: Option<string>, m: nat, n: nat)
    requires NamesPolicy(location, m) && NamesPolicy(location, n)
    ensures m == n
  {
    hide NamesPolicy, LocationNumber;
    LocationExact(location, m);
    LocationExact(location, n);
  }

  datatype System = System(parties: seq<string>, policies: seq<string>, owners: map<string, string>)

  /** The text is the policy of the row read under `id`, or of a user of nothing when there is none. */
  predicate AsRead(rows: Rows, id: string, text: string) {
    if rows(id).Some? then EmitPolicy(User(id, rows(id).value.attrs, rows(id).value.rules)) == Ok(text)
    else EmitPolicy(User(id, [], [])) == Ok(text)
  }

  /** What a policy text, once analysed, asks of the closure; a text that cannot be emitted fails the
      assembly before this matters. */
  function PatternsOf(first: Rows, analyze: string -> seq<Attrs>): Closure.Policies {
    id => match TextOf(id, first) case Ok(text) => analyze(text) case Err(_) => []
  }

  lemma PatternsAsRead(first: Rows, analyze: string -> seq<Attrs>, id: string, text: string)
    requires AsRead(first, id, text)
    ensures PatternsOf(first, analyze)(id) == analyze(text)
  {
    hide EmitPolicy;
    assert TextOf(id, first) == Ok(text);
  }

  /** The policy texts assembled during the closure, each filed under its user. */
  method FileTexts(asked: seq<string>, first: Rows) returns (r: Result<map<string, string>, EmitError>)
    ensures r.Ok? <==> forall id :: id in asked ==> TextOf(id, first).Ok?
    ensures r.Err? ==> exists id :: id in asked && TextOf(id, first) == Err(r.error)
    ensures r.Ok? ==> Owned(r.value) && forall id :: id in asked ==> TextOf(id, first).value in r.value
  {
    hide EmitPolicy;
    var owners: map<string, string> := map[];
    for k := 0 to |asked|
      invariant forall id :: id in asked[..k] ==> TextOf(id, first).Ok? && TextOf(id, first).value in owners
      invariant Owned(owners)
    {
      assert asked[..k + 1] == asked[..k] + [asked[k]];
      var text := TextOf(asked[k], first);
      if text.Err? {
        return Err(text.error);
      }
      FileStep(owners, text.value, UserOf(asked[k], first(asked[k])));
      owners := owners[text.value := asked[k]];
    }
    assert asked[..|asked|] == asked;
    return Ok(owners);
  }

  lemma FileStep(owners: map<string, string>, text: string, user: User)
    requires Owned(owners) && EmitPolicy(user) == Ok(text)
    ensures Owned(owners[text := user.id])
  {
    hide EmitPolicy;
  }

  /** The policies of the system, from the second read. */
  method BuildPolicies(parties: seq<string>, second: Rows) returns (r: Result<seq<string>, EmitError>)
    ensures r.Ok? <==> forall id :: id in parties ==> TextOf(id, second).Ok?
    ensures r.Err? ==> exists id :: id in parties && TextOf(id, second) == Err(r.error)
    ensures r.Ok? ==> Aligned(parties, r.value) && forall k :: 0 <= k < |parties| ==> TextOf(parties[k], second) == Ok(r.value[k])
  {
    hide EmitPolicy;
    var policies: seq<string> := [];
    for k := 0 to |parties|
      invariant |policies| == k && forall j :: 0 <= j < k ==> TextOf(parties[j], second) == Ok(policies[j])
    {
      var text := TextOf(parties[k], second);
      if text.Err? {
        return Err(text.error);
      }
      policies := policies + [text.value];
    }
    forall k | 0 <= k < |parties|
      ensures IsPolicyOf(policies[k], parties[k])
    {
      assert UserOf(parties[k], second(parties[k])).id == parties[k];
    }
    return Ok(policies);
  }

  method AssemblePolicySystem(seed: seq<string>, index: Closure.Index, first: Rows, second: Rows, analyze: string -> seq<Attrs>)
    returns (r: Result<System, EmitError>)
    ensures r.Err? ==> exists parties, id ::
      && Closure.IsPartyClosure(index, PatternsOf(first, analyze), seed, parties)
      && id in parties && (TextOf(id, first) == Err(r.error) || TextOf(id, second) == Err(r.error))
    ensures r.Ok? ==>
      && Closure.IsPartyClosure(index, PatternsOf(first, analyze), seed, r.value.parties)
      && Owned(r.value.owners) && Aligned(r.value.parties, r.value.policies)
    ensures r.Ok? ==> forall k :: 0 <= k < |r.value.parties| ==>
      && TextOf(r.value.parties[k], second) == Ok(r.value.policies[k]) && AsRead(second, r.value.parties[k], r.value.policies[k])
      && TextOf(r.value.parties[k], first).Ok? && TextOf(r.value.parties[k], first).value in r.value.owners
  {
    hide EmitPolicy, Closure.IsPartyClosure, Owned, Aligned;
    var parties, asked := Closure.PartyClosure(seed, index, PatternsOf(first, analyze));
    assert forall id :: id in asked <==> id in Closure.SetOf(asked);
    assert forall id :: id in parties <==> id in Closure.SetOf(parties);
    var owners :- FileTexts(asked, first);
    var policies :- BuildPolicies(parties, second);
    forall k | 0 <= k < |parties|
      ensures parties[k] in asked
    {
      assert parties[k] in Closure.SetOf(parties);
    }
    return Ok(System(parties, policies, owners));
  }

  /** When a party's row was not edited between the reads, its own location blames it. */
  lemma BlameFindsUnedited(system: System, first: Rows, second: Rows, location: Option<string>, n: nat)
    requires Owned(system.owners) && Aligned(system.parties, system.policies)
    requires NamesPolicy(location, n) && 0 < n <= |system.parties|
    requires var id := system.parties[n - 1];
             && first(id) == second(id) && TextOf(id, second) == Ok(system.policies[n - 1])
             && TextOf(id, first).Ok? && TextOf(id, first).value in system.owners
    ensures UserForLocation(location, system.policies, system.owners) == Some(system.parties[n - 1])
  {
    hide EmitPolicy, LocationNumber, NamesPolicy;
    LocationExact(location, n);
    BlameNeverWrong(location, system.parties, system.policies, system.owners);
    var m: nat :| NamesPolicy(location, m) && 0 < m <= |system.parties|
                  && UserForLocation(location, system.policies, system.owners) == Some(system.parties[m - 1]);
    NamesOne(location, m, n);
  }
}
