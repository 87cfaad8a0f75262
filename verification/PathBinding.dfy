/** Binding an object's wrapped data key to the object's path, over the life of a store:
    writes, copies, key rotation and the migration that binds what is still unbound. */
module PathBinding {
  import opened Bytes

  /** A bucket and an object's real, decoded key. */
  datatype Path = Path(bucket: Bytes, key: Bytes)

  /** `bucket ‖ 0 ‖ key`. */
  function BindingOf(p: Path): (b: Bytes)
    ensures b != []
  {
    p.bucket + [0] + p.key
  }

  /** Paths whose buckets hold no NUL never share a binding. */
  lemma BindingInjective(p: Path, q: Path)
    requires 0 !in p.bucket && 0 !in q.bucket && BindingOf(p) == BindingOf(q)
    ensures p == q
  {
    var b := BindingOf(p);
    assert b[|p.bucket|] == 0 && b[|q.bucket|] == 0;
    assert b[..|p.bucket|] == p.bucket && b[|p.bucket| + 1..] == p.key;
    assert b[..|q.bucket|] == q.bucket && b[|q.bucket| + 1..] == q.key;
  }

  const KEK_PREFIX: Bytes := [115, 51, 97, 49, 45, 107, 101, 107]  // "s3a1-kek"

  /** The associated data of a wrap: an empty binding leaves no trace. */
  function WrapAad(kid: Bytes, binding: Bytes): Bytes {
    KEK_PREFIX + kid + (if binding == [] then [] else [0] + binding)
  }

  lemma WrapAadInjective(kid: Bytes, binding: Bytes, binding': Bytes)
    requires WrapAad(kid, binding) == WrapAad(kid, binding')
    ensures binding == binding'
  {
    var n := |KEK_PREFIX + kid|;
    var s, s' := WrapAad(kid, binding)[n..], WrapAad(kid, binding')[n..];
    assert s == (if binding == [] then [] else [0] + binding);
    assert s' == (if binding' == [] then [] else [0] + binding');
    assert binding != [] ==> s[1..] == binding;
    assert binding' != [] ==> s'[1..] == binding';
  }

  // ---------------------------------------------------------------- keys

  datatype Kek = Aes | Rsa

  datatype KeyName = KeyName(kek: Kek, kid: Bytes)

  /** Key wrapping: arguments are the key, the data key or its wrapped form, the binding
      and, when wrapping, fresh randomness. */
  datatype Wrapping = Wrapping(
    wrap: (KeyName, Bytes, Bytes, Bytes) -> Bytes,
    unwrap: (KeyName, Bytes, Bytes) -> Option<Bytes>
  )

  /** A wrapped key opens under the binding it was wrapped with, and under no other. */
  ghost predicate Binds(w: Wrapping) {
    forall name, dek, binding, binding', salt ::
      w.unwrap(name, w.wrap(name, dek, binding, salt), binding') == if binding' == binding then Some(dek) else None
  }

  /** What key encryption gives: a data key sealed under some associated data (for RSA, a
      label) opens under that and under nothing else. */
  datatype KeyCipher = KeyCipher(
    seal: (KeyName, Bytes, Bytes, Bytes) -> Bytes,
    open: (KeyName, Bytes, Bytes) -> Option<Bytes>
  )

  ghost predicate Authentic(c: KeyCipher) {
    forall name, mark, mark', dek, salt ::
      c.open(name, mark', c.seal(name, mark, dek, salt)) == if mark' == mark then Some(dek) else None
  }

  /** A digest without collisions among bindings, never empty. */
  ghost predicate Distinguishes(digest: Bytes -> Bytes) {
    forall a, b :: digest(a) != [] && (digest(a) == digest(b) ==> a == b)
  }

  /** A mark in front of a data key, its length written in unary. */
  function Marked(mark: Bytes): Bytes {
    seq(|mark|, _ => 1) + [0] + mark
  }

  lemma MarkedApart(a: Bytes, b: Bytes, rest: Bytes)
    requires Marked(b) <= Marked(a) + rest
    ensures a == b
  {
    var s := Marked(a) + rest;
    assert s[|a|] == 0 && s[|b|] == 0;
    assert forall i :: 0 <= i < |a| ==> s[i] == 1;
    assert forall i :: 0 <= i < |b| ==> s[i] == 1;
    assert |a| == |b|;
    assert s[|a| + 1..2 * |a| + 1] == a && s[|b| + 1..2 * |b| + 1] == b;
  }

  /** The two laws are consistent. */
  lemma KeyLawsAreConsistent()
    ensures exists c, digest :: Authentic(c) && Distinguishes(digest)
  {
    var digest := (b: Bytes) => [1] + b;
    forall a: Bytes, b: Bytes | digest(a) == digest(b) ensures a == b {
      assert digest(a)[1..] == a && digest(b)[1..] == b;
    }
    assert Distinguishes(digest);
    var c := KeyCipher((name: KeyName, mark: Bytes, dek: Bytes, salt: Bytes) => Marked(mark) + dek,
                       (name: KeyName, mark: Bytes, blob: Bytes) => if Marked(mark) <= blob then Some(blob[|Marked(mark)|..]) else None);
    forall name: KeyName, mark: Bytes, mark': Bytes, dek: Bytes, salt: Bytes
      ensures c.open(name, mark', c.seal(name, mark, dek, salt)) == if mark' == mark then Some(dek) else None
    {
      if Marked(mark') <= Marked(mark) + dek {
        MarkedApart(mark, mark', dek);
        assert (Marked(mark) + dek)[|Marked(mark)|..] == dek;
      }
    }
    assert Authentic(c);
  }

  /** How a binding enters a wrap: in the associated data of an AES key, and as a digest in
      the label of an RSA key, which an empty binding leaves empty. */
  function LabelOf(digest: Bytes -> Bytes, name: KeyName, binding: Bytes): Bytes {
    match name.kek
    case Aes => WrapAad(name.kid, binding)
    case Rsa => if binding == [] then [] else digest(binding)
  }

  function WrappingOf(c: KeyCipher, digest: Bytes -> Bytes): Wrapping {
    Wrapping((name: KeyName, dek: Bytes, binding: Bytes, salt: Bytes) => c.seal(name, LabelOf(digest, name, binding), dek, salt),
             (name: KeyName, wrapped: Bytes, binding: Bytes) => c.open(name, LabelOf(digest, name, binding), wrapped))
  }

  /** Labels tell bindings apart, so a wrapped key is tied to its binding. */
  lemma WrapsBind(c: KeyCipher, digest: Bytes -> Bytes)
    requires Authentic(c) && Distinguishes(digest)
    ensures Binds(WrappingOf(c, digest))
  {
    hide WrapAad;
    forall name: KeyName, binding: Bytes, binding': Bytes
      ensures LabelOf(digest, name, binding) == LabelOf(digest, name, binding') ==> binding == binding'
    {
      if LabelOf(digest, name, binding) == LabelOf(digest, name, binding') && name.kek.Aes? {
        WrapAadInjective(name.kid, binding, binding');
      }
    }
    var w := WrappingOf(c, digest);
    forall name, dek, binding, binding', salt
      ensures w.unwrap(name, w.wrap(name, dek, binding, salt), binding') == if binding' == binding then Some(dek) else None
    {
    }
  }

  datatype Keyring = Keyring(w: Wrapping, active: KeyName, readable: set<KeyName>)

  /** A node that can read what it writes. */
  ghost predicate ReadWrite(ring: Keyring) {
    Binds(ring.w) && ring.active in ring.readable
  }

  datatype UnwrapError = KeyNotAvailable | UnwrapFailed

  /** The metadata of an encrypted object; `rest` stands for the fields that no rewrap touches. */
  datatype Meta = Meta(name: KeyName, wrapped: Bytes, rest: Bytes)

  function Unwrap(ring: Keyring, meta: Meta, binding: Bytes): Result<Bytes, UnwrapError> {
    if meta.name !in ring.readable then Err(KeyNotAvailable)
    else
      match ring.w.unwrap(meta.name, meta.wrapped, binding)
      case Some(dek) => Ok(dek)
      case None => Err(UnwrapFailed)
  }

  function WrapActive(ring: Keyring, dek: Bytes, binding: Bytes, salt: Bytes, rest: Bytes): Meta {
    Meta(ring.active, ring.w.wrap(ring.active, dek, binding, salt), rest)
  }

  datatype BindMode = Off | On | Strict

  function BindingFor(mode: BindMode, p: Path): Bytes {
    if mode.Off? then [] else BindingOf(p)
  }

  /** The data key of an object at a path; with binding merely on, an unbound wrap is
      accepted after the bound one failed. */
  function ResolveKey(mode: BindMode, ring: Keyring, meta: Meta, p: Path): Result<Bytes, UnwrapError> {
    match mode
    case Off => Unwrap(ring, meta, [])
    case Strict => Unwrap(ring, meta, BindingOf(p))
    case On =>
      var r := Unwrap(ring, meta, BindingOf(p));
      if r == Err(UnwrapFailed) then Unwrap(ring, meta, []) else r
  }

  // ---------------------------------------------------------------- the store

  /** An object: plain, or encrypted under a data key that only its metadata can tell. */
  datatype Object = Plain(bytes: Bytes) | V1(meta: Meta, dek: Bytes, bytes: Bytes)

  type Store = map<Path, Object>

  datatype Event =
    | Put(p: Path, dek: Bytes, bytes: Bytes, rest: Bytes, salt: Bytes)
    | PutPlain(p: Path, bytes: Bytes)
    | Copy(src: Path, dst: Path, replace: bool, salt: Bytes)
    | Rewrap(p: Path, salt: Bytes)
    | Rebind(p: Path, fromBucket: Option<Bytes>, salt: Bytes)
    | Delete(p: Path)

  function PutStep(mode: BindMode, ring: Keyring, s: Store, p: Path, dek: Bytes, bytes: Bytes, rest: Bytes, salt: Bytes): Store {
    s[p := V1(WrapActive(ring, dek, BindingFor(mode, p), salt, rest), dek, bytes)]
  }

  /** A server-side copy. An encrypted source is re-wrapped for its destination unless
      binding is off; replacing its metadata is refused. */
  function CopyStep(mode: BindMode, ring: Keyring, s: Store, src: Path, dst: Path, replace: bool, salt: Bytes): Store {
    if src !in s then s
    else
      match s[src]
      case Plain(_) => s[dst := s[src]]
      case V1(meta, dek, bytes) =>
        if replace then s
        else if mode.Off? then s[dst := s[src]]
        else
          match ResolveKey(mode, ring, meta, src)
          case Err(_) => s
          case Ok(key) => s[dst := V1(WrapActive(ring, key, BindingFor(mode, dst), salt, meta.rest), dek, bytes)]
  }

  /** Rotates an object onto the active key; one that names it already is left alone. */
  function RewrapStep(mode: BindMode, ring: Keyring, s: Store, p: Path, salt: Bytes): Store {
    if p !in s || s[p].Plain? || s[p].meta.name.kid == ring.active.kid then s
    else
      match ResolveKey(mode, ring, s[p].meta, p)
      case Err(_) => s
      case Ok(key) => s[p := s[p].(meta := WrapActive(ring, key, BindingFor(mode, p), salt, s[p].meta.rest))]
  }

  datatype RebindOutcome = Rebound | AlreadyBound | NotV1 | Failed

  /** Binds an object to its path: from no binding, or from that of another bucket. */
  function RebindStep(mode: BindMode, ring: Keyring, s: Store, p: Path, fromBucket: Option<Bytes>, salt: Bytes): (Store, RebindOutcome) {
    if p !in s then (s, Failed)
    else if s[p].Plain? then (s, NotV1)
    else
      var meta, current := s[p].meta, BindingFor(mode, p);
      if Unwrap(ring, meta, current).Ok? then (s, AlreadyBound)
      else
        var unbound := Unwrap(ring, meta, []);
        var found :=
          if unbound.Ok? || fromBucket.None? then unbound
          else Unwrap(ring, meta, BindingFor(mode, Path(fromBucket.value, p.key)));
        match found
        case Err(_) => (s, Failed)
        case Ok(key) => (s[p := s[p].(meta := WrapActive(ring, key, current, salt, meta.rest))], Rebound)
  }

  function Apply(mode: BindMode, ring: Keyring, s: Store, e: Event): Store {
    match e
    case Put(p, dek, bytes, rest, salt) => PutStep(mode, ring, s, p, dek, bytes, rest, salt)
    case PutPlain(p, bytes) => s[p := Plain(bytes)]
    case Copy(src, dst, replace, salt) => CopyStep(mode, ring, s, src, dst, replace, salt)
    case Rewrap(p, salt) => RewrapStep(mode, ring, s, p, salt)
    case Rebind(p, fromBucket, salt) => RebindStep(mode, ring, s, p, fromBucket, salt).0
    case Delete(p) => s - {p}
  }

  /** The store after a run of events, one after the other. */
  function Play(mode: BindMode, ring: Keyring, s: Store, events: seq<Event>): Store {
    if |events| == 0 then s
    else Apply(mode, ring, Play(mode, ring, s, events[..|events| - 1]), events[|events| - 1])
  }

  // ---------------------------------------------------------------- the invariant

  /** The data key was wrapped by a key that the node can read with, under this binding. */
  ghost predicate WrappedUnder(ring: Keyring, meta: Meta, dek: Bytes, binding: Bytes) {
    meta.name in ring.readable && exists salt :: meta.wrapped == ring.w.wrap(meta.name, dek, binding, salt)
  }

  lemma Unwraps(ring: Keyring, meta: Meta, dek: Bytes, binding: Bytes, binding': Bytes)
    requires Binds(ring.w) && WrappedUnder(ring, meta, dek, binding)
    ensures Unwrap(ring, meta, binding') == if binding' == binding then Ok(dek) else Err(UnwrapFailed)
  {
    var salt :| meta.wrapped == ring.w.wrap(meta.name, dek, binding, salt);
  }

  lemma ActiveWraps(ring: Keyring, dek: Bytes, binding: Bytes, salt: Bytes, rest: Bytes)
    requires ReadWrite(ring)
    ensures WrappedUnder(ring, WrapActive(ring, dek, binding, salt, rest), dek, binding)
  {
  }

  /** A key that the node cannot read with is told apart from a wrap that does not open. */
  lemma MissingKey(mode: BindMode, ring: Keyring, meta: Meta, p: Path)
    ensures ResolveKey(mode, ring, meta, p) == Err(KeyNotAvailable) <==> meta.name !in ring.readable
  {
  }

  /** An encrypted object is unbound or bound to its own path. */
  ghost predicate Owned(ring: Keyring, p: Path, o: Object) {
    o.V1? ==> WrappedUnder(ring, o.meta, o.dek, []) || WrappedUnder(ring, o.meta, o.dek, BindingOf(p))
  }

  ghost predicate AllOwned(ring: Keyring, s: Store) {
    forall p :: p in s ==> Owned(ring, p, s[p])
  }

  lemma OwnedResolves(ring: Keyring, p: Path, o: Object)
    requires Binds(ring.w) && o.V1? && Owned(ring, p, o)
    ensures ResolveKey(On, ring, o.meta, p) == Ok(o.dek)
  {
    hide WrappedUnder, Unwrap, Binds;
    if WrappedUnder(ring, o.meta, o.dek, []) {
      Unwraps(ring, o.meta, o.dek, [], []);
      Unwraps(ring, o.meta, o.dek, [], BindingOf(p));
    } else {
      Unwraps(ring, o.meta, o.dek, BindingOf(p), BindingOf(p));
    }
  }

  lemma StepKeepsOwned(ring: Keyring, s: Store, e: Event)
    requires ReadWrite(ring) && AllOwned(ring, s)
    ensures AllOwned(ring, Apply(On, ring, s, e))
  {
    hide WrappedUnder, WrapActive, ResolveKey, BindingOf, Unwrap;
    match e {
      case Put(p, dek, bytes, rest, salt) => ActiveWraps(ring, dek, BindingOf(p), salt, rest);
      case PutPlain(_, _) =>
      case Copy(src, dst, replace, salt) =>
        if src in s && s[src].V1? {
          assert Owned(ring, src, s[src]);
          OwnedResolves(ring, src, s[src]);
          ActiveWraps(ring, s[src].dek, BindingOf(dst), salt, s[src].meta.rest);
        }
      case Rewrap(p, salt) =>
        if p in s && s[p].V1? {
          assert Owned(ring, p, s[p]);
          OwnedResolves(ring, p, s[p]);
          ActiveWraps(ring, s[p].dek, BindingOf(p), salt, s[p].meta.rest);
        }
      case Rebind(p, fromBucket, salt) => RebindKeepsOwned(ring, s, p, fromBucket, salt);
      case Delete(_) =>
    }
  }

  lemma RebindKeepsOwned(ring: Keyring, s: Store, p: Path, fromBucket: Option<Bytes>, salt: Bytes)
    requires ReadWrite(ring) && AllOwned(ring, s)
    ensures AllOwned(ring, RebindStep(On, ring, s, p, fromBucket, salt).0)
  {
    hide WrappedUnder, WrapActive, Unwrap;
    if p in s && s[p].V1? {
      assert Owned(ring, p, s[p]);
      RebindBinds(ring, s, p, fromBucket, salt);
    }
  }

  /** Every run with binding on keeps every encrypted object readable at its own path,
      with the data key that its bytes were written under. */
  lemma {:induction false} RunStaysReadable(ring: Keyring, s: Store, events: seq<Event>, p: Path)
    requires ReadWrite(ring) && AllOwned(ring, s)
    ensures AllOwned(ring, Play(On, ring, s, events))
    ensures var end := Play(On, ring, s, events);
            p in end && end[p].V1? ==> ResolveKey(On, ring, end[p].meta, p) == Ok(end[p].dek)
  {
    hide Owned, ResolveKey, Apply;
    if |events| > 0 {
      var front := events[..|events| - 1];
      RunStaysReadable(ring, s, front, p);
      StepKeepsOwned(ring, Play(On, ring, s, front), events[|events| - 1]);
    }
    var end := Play(On, ring, s, events);
    if p in end && end[p].V1? {
      OwnedResolves(ring, p, end[p]);
    }
  }

  // ---------------------------------------------------------------- key rotation

  /** The next configuration of a node: another active key, perhaps, and no readable key lost. */
  ghost predicate Rotates(ring: Keyring, ring': Keyring) {
    ring'.w == ring.w && ring.readable <= ring'.readable && ReadWrite(ring')
  }

  lemma RotationKeepsOwned(ring: Keyring, ring': Keyring, s: Store)
    requires Rotates(ring, ring') && AllOwned(ring, s)
    ensures AllOwned(ring', s)
  {
    forall p | p in s ensures Owned(ring', p, s[p]) {
      assert Owned(ring, p, s[p]);
    }
  }

  /** What happens under one configuration. */
  datatype Epoch = Epoch(ring: Keyring, events: seq<Event>)

  function PlayAll(s: Store, epochs: seq<Epoch>): Store {
    if |epochs| == 0 then s
    else
      var last := epochs[|epochs| - 1];
      Play(On, last.ring, PlayAll(s, epochs[..|epochs| - 1]), last.events)
  }

  /** Readability survives any number of rotations, whatever happens between them. */
  lemma {:induction false} RotationsStayReadable(ring: Keyring, s: Store, epochs: seq<Epoch>, p: Path)
    requires ReadWrite(ring) && AllOwned(ring, s) && |epochs| > 0 && Rotates(ring, epochs[0].ring)
    requires forall i :: 0 < i < |epochs| ==> Rotates(epochs[i - 1].ring, epochs[i].ring)
    ensures var end, last := PlayAll(s, epochs), epochs[|epochs| - 1].ring;
            && AllOwned(last, end)
            && (p in end && end[p].V1? ==> ResolveKey(On, last, end[p].meta, p) == Ok(end[p].dek))
  {
    hide AllOwned, ResolveKey, Play, Rotates;
    var n := |epochs| - 1;
    var last := epochs[n].ring;
    if n > 0 {
      assert Rotates(epochs[n - 1].ring, last);
      RotationsStayReadable(ring, s, epochs[..n], p);
      RotationKeepsOwned(epochs[n - 1].ring, last, PlayAll(s, epochs[..n]));
    } else {
      assert PlayAll(s, epochs[..0]) == s;
      RotationKeepsOwned(ring, last, s);
    }
    Readied(if n > 0 then epochs[n - 1].ring else ring, last);
    RunStaysReadable(last, PlayAll(s, epochs[..n]), epochs[n].events, p);
  }

  lemma Readied(ring: Keyring, ring': Keyring)
    requires Rotates(ring, ring')
    ensures ReadWrite(ring')
  {
  }

  /** A rewrap moves an encrypted object onto the active key, bound to its path, unless it
      carries the active key's id already. */
  lemma RewrapExact(ring: Keyring, s: Store, p: Path, salt: Bytes)
    requires ReadWrite(ring) && AllOwned(ring, s)
    ensures var s' := RewrapStep(On, ring, s, p, salt);
            if p in s && s[p].V1? && s[p].meta.name.kid != ring.active.kid
            then s'.Keys == s.Keys && (forall q :: q in s && q != p ==> s'[q] == s[q]) && SameData(s[p], s'[p])
                 && s'[p].meta.name == ring.active && Bound(ring, p, s'[p])
            else s' == s
  {
    hide WrappedUnder, ResolveKey, BindingOf, Unwrap, WrapActive;
    if p in s && s[p].V1? {
      assert Owned(ring, p, s[p]);
      OwnedResolves(ring, p, s[p]);
      ActiveWraps(ring, s[p].dek, BindingOf(p), salt, s[p].meta.rest);
      WrapsForActive(ring, s[p].dek, BindingOf(p), salt, s[p].meta.rest);
    }
  }

  /** Every listed object that is encrypted names the active key. */
  ghost predicate AllActive(ring: Keyring, s: Store, listing: seq<Path>) {
    forall p :: p in listing && p in s && s[p].V1? ==> s[p].meta.name.kid == ring.active.kid
  }

  function RewrapAll(mode: BindMode, ring: Keyring, s: Store, listing: seq<Path>, salts: nat -> Bytes): Store {
    if |listing| == 0 then s
    else
      var n := |listing| - 1;
      RewrapStep(mode, ring, RewrapAll(mode, ring, s, listing[..n], salts), listing[n], salts(n))
  }

  /** Rewrapping a listing moves all of it onto the active key and loses nothing. */
  lemma {:induction false} RewrapAllMoves(ring: Keyring, s: Store, listing: seq<Path>, salts: nat -> Bytes)
    requires ReadWrite(ring) && AllOwned(ring, s)
    ensures var end := RewrapAll(On, ring, s, listing, salts);
            AllOwned(ring, end) && AllActive(ring, end, listing) && end.Keys == s.Keys && forall p :: p in s ==> SameData(s[p], end[p])
  {
    hide Owned, ResolveKey, WrapActive;
    if |listing| > 0 {
      var n := |listing| - 1;
      var now, p := RewrapAll(On, ring, s, listing[..n], salts), listing[n];
      RewrapAllMoves(ring, s, listing[..n], salts);
      StepKeepsOwned(ring, now, Rewrap(p, salts(n)));
      if p in now && now[p].V1? {
        assert Owned(ring, p, now[p]);
        OwnedResolves(ring, p, now[p]);
        WrapsForActive(ring, now[p].dek, BindingOf(p), salts(n), now[p].meta.rest);
      }
      assert forall q :: q in listing ==> q in listing[..n] || q == p;
    }
  }

  lemma WrapsForActive(ring: Keyring, dek: Bytes, binding: Bytes, salt: Bytes, rest: Bytes)
    ensures var meta := WrapActive(ring, dek, binding, salt, rest); meta.name == ring.active && meta.rest == rest
  {
  }

  /** The keyring without the keys that a rotation replaced. */
  function Retired(ring: Keyring): Keyring {
    ring.(readable := set name | name in ring.readable && name.kid == ring.active.kid)
  }

  /** Once a listing of the whole store was rewrapped, the old keys are not needed any more. */
  lemma OldKeysRetire(ring: Keyring, s: Store, listing: seq<Path>, salts: nat -> Bytes, p: Path)
    requires ReadWrite(ring) && AllOwned(ring, s) && forall q :: q in s ==> q in listing
    ensures var end := RewrapAll(On, ring, s, listing, salts);
            && AllOwned(Retired(ring), end)
            && (p in end && end[p].V1? ==> ResolveKey(On, Retired(ring), end[p].meta, p) == Ok(end[p].dek))
            && forall q :: q in s ==> q in end && SameData(s[q], end[q])
  {
    hide ResolveKey, RewrapAll, Binds;
    RewrapAllMoves(ring, s, listing, salts);
    var end := RewrapAll(On, ring, s, listing, salts);
    forall q | q in end ensures Owned(Retired(ring), q, end[q]) {
      assert q in s && Owned(ring, q, end[q]);
    }
    if p in end && end[p].V1? {
      assert p in s && SameData(s[p], end[p]);
      OwnedResolves(Retired(ring), p, end[p]);
    }
  }

  /** The same object but for the wrapping of its data key. */
  predicate SameData(o: Object, o': Object) {
    match o
    case Plain(_) => o' == o
    case V1(meta, dek, bytes) => o'.V1? && o'.dek == dek && o'.bytes == bytes && o'.meta.rest == meta.rest
  }

  /** Only writes and deletions change data; a copy carries it over unchanged. */
  lemma DataSurvives(mode: BindMode, ring: Keyring, s: Store, e: Event, p: Path)
    requires p in s
    ensures
      var s' := Apply(mode, ring, s, e);
      || ((e.Put? || e.PutPlain? || e.Delete?) && e.p == p)
      || (p in s' && SameData(s[p], s'[p]))
      || (p in s' && e.Copy? && e.dst == p && e.src in s && SameData(s[e.src], s'[p]))
  {
    hide ResolveKey, Unwrap;
  }

  // ---------------------------------------------------------------- what a client sees

  /** An object without the wrapping of its data key. */
  datatype Content = Bare(bytes: Bytes) | Encrypted(dek: Bytes, bytes: Bytes, rest: Bytes)

  function ContentOf(o: Object): Content {
    match o
    case Plain(bytes) => Bare(bytes)
    case V1(meta, dek, bytes) => Encrypted(dek, bytes, meta.rest)
  }

  function Contents(s: Store): map<Path, Content> {
    map p | p in s :: ContentOf(s[p])
  }

  /** An object store that knows nothing of keys: writes replace, copies copy what is there,
      unless they would replace the metadata of an encrypted object, and rotation and
      migration do nothing. */
  function Simple(c: map<Path, Content>, e: Event): map<Path, Content> {
    match e
    case Put(p, dek, bytes, rest, _) => c[p := Encrypted(dek, bytes, rest)]
    case PutPlain(p, bytes) => c[p := Bare(bytes)]
    case Copy(src, dst, replace, _) => if src in c && (c[src].Bare? || !replace) then c[dst := c[src]] else c
    case Rewrap(_, _) => c
    case Rebind(_, _, _) => c
    case Delete(p) => c - {p}
  }

  function SimplePlay(c: map<Path, Content>, events: seq<Event>): map<Path, Content> {
    if |events| == 0 then c else Simple(SimplePlay(c, events[..|events| - 1]), events[|events| - 1])
  }

  lemma StepIsSimple(ring: Keyring, s: Store, e: Event)
    requires ReadWrite(ring) && AllOwned(ring, s)
    ensures Contents(Apply(On, ring, s, e)) == Simple(Contents(s), e)
  {
    hide WrappedUnder, ResolveKey, BindingOf, Unwrap, RebindStep;
    match e {
      case Put(_, _, _, _, _) =>
      case PutPlain(_, _) =>
      case Copy(src, dst, replace, salt) => CopyIsSimple(ring, s, src, dst, replace, salt);
      case Rewrap(p, salt) =>
        if p in s && s[p].V1? {
          assert Owned(ring, p, s[p]);
          OwnedResolves(ring, p, s[p]);
        }
      case Rebind(p, fromBucket, salt) =>
        RebindOpens(ring, s, p, fromBucket, salt);
        RebindLeaves(ring, s, p, fromBucket, salt);
      case Delete(_) =>
    }
  }

  lemma CopyIsSimple(ring: Keyring, s: Store, src: Path, dst: Path, replace: bool, salt: Bytes)
    requires ReadWrite(ring) && AllOwned(ring, s)
    ensures Contents(CopyStep(On, ring, s, src, dst, replace, salt)) == Simple(Contents(s), Copy(src, dst, replace, salt))
  {
    hide WrappedUnder, ResolveKey, BindingOf, Unwrap;
    if src in s && s[src].V1? {
      assert Owned(ring, src, s[src]);
      OwnedResolves(ring, src, s[src]);
    }
  }

  lemma RebindLeaves(ring: Keyring, s: Store, p: Path, fromBucket: Option<Bytes>, salt: Bytes)
    ensures var s' := RebindStep(On, ring, s, p, fromBucket, salt).0;
            s'.Keys == s.Keys && forall q :: q in s && q != p ==> s'[q] == s[q]
  {
    hide Unwrap, WrapActive;
  }

  /** Behind the proxy every run leaves the contents that it would leave in a store without
      keys: writes and copies take effect, and nothing else changes what is stored. */
  lemma {:induction false} RunIsSimple(ring: Keyring, s: Store, events: seq<Event>)
    requires ReadWrite(ring) && AllOwned(ring, s)
    ensures Contents(Play(On, ring, s, events)) == SimplePlay(Contents(s), events)
  {
    hide AllOwned, Apply, Simple, Contents;
    if |events| > 0 {
      var front := events[..|events| - 1];
      RunIsSimple(ring, s, front);
      RunStaysReadable(ring, s, front, Path([], []));
      StepIsSimple(ring, Play(On, ring, s, front), events[|events| - 1]);
    }
  }

  /** In every mode a written object resolves at its path, and is bound there unless binding
      is off. */
  lemma PutResolves(mode: BindMode, ring: Keyring, s: Store, p: Path, dek: Bytes, bytes: Bytes, rest: Bytes, salt: Bytes)
    requires ReadWrite(ring)
    ensures var s' := PutStep(mode, ring, s, p, dek, bytes, rest, salt);
            && s'.Keys == s.Keys + {p} && (forall q :: q in s && q != p ==> s'[q] == s[q])
            && ContentOf(s'[p]) == Encrypted(dek, bytes, rest)
            && ResolveKey(mode, ring, s'[p].meta, p) == Ok(dek) && WrappedUnder(ring, s'[p].meta, dek, BindingFor(mode, p))
  {
    hide WrappedUnder, Unwrap, Binds, WrapActive;
    var meta := WrapActive(ring, dek, BindingFor(mode, p), salt, rest);
    ActiveWraps(ring, dek, BindingFor(mode, p), salt, rest);
    KeepsRest(ring, dek, BindingFor(mode, p), salt, rest);
    Unwraps(ring, meta, dek, BindingFor(mode, p), BindingFor(mode, p));
  }

  /** What a copy needs of its source. */
  predicate Copies(mode: BindMode, ring: Keyring, s: Store, src: Path, replace: bool) {
    src in s && (s[src].V1? ==> !replace && (mode.Off? || ResolveKey(mode, ring, s[src].meta, src) == Ok(s[src].dek)))
  }

  /** In every mode a copy of an object that resolves to its own key takes effect: the
      destination holds the content and, with binding, resolves under its own path; any
      other copy of an encrypted object whose key does not resolve changes nothing. */
  lemma CopyExact(mode: BindMode, ring: Keyring, s: Store, src: Path, dst: Path, replace: bool, salt: Bytes)
    requires ReadWrite(ring)
    ensures var s' := CopyStep(mode, ring, s, src, dst, replace, salt);
            && (Copies(mode, ring, s, src, replace) ==>
                  && s'.Keys == s.Keys + {dst} && (forall q :: q in s && q != dst ==> s'[q] == s[q])
                  && ContentOf(s'[dst]) == ContentOf(s[src])
                  && (s[src].V1? && !mode.Off? ==> ResolveKey(mode, ring, s'[dst].meta, dst) == Ok(s[src].dek) && Bound(ring, dst, s'[dst])))
            && (src !in s || (s[src].V1? && (replace || (!mode.Off? && ResolveKey(mode, ring, s[src].meta, src).Err?))) ==> s' == s)
  {
    hide WrappedUnder, Unwrap, Binds, WrapActive, ResolveKey;
    if Copies(mode, ring, s, src, replace) && s[src].V1? && !mode.Off? {
      PutResolves(mode, ring, s, dst, s[src].dek, s[src].bytes, s[src].meta.rest, salt);
    }
  }

  // ---------------------------------------------------------------- the migration

  ghost predicate Bound(ring: Keyring, p: Path, o: Object) {
    o.V1? ==> WrappedUnder(ring, o.meta, o.dek, BindingOf(p))
  }

  /** What the migration can bind: unbound, bound to its path, or bound to the same key in
      the bucket it was restored from. */
  ghost predicate Bindable(ring: Keyring, p: Path, o: Object, fromBucket: Option<Bytes>) {
    Owned(ring, p, o)
    || (fromBucket.Some? && WrappedUnder(ring, o.meta, o.dek, BindingOf(Path(fromBucket.value, p.key))))
  }

  /** A migrated object is bound and keeps its data; the step reports whether it had to act. */
  lemma RebindBinds(ring: Keyring, s: Store, p: Path, fromBucket: Option<Bytes>, salt: Bytes)
    requires ReadWrite(ring) && p in s && s[p].V1? && Bindable(ring, p, s[p], fromBucket)
    ensures var (s', outcome) := RebindStep(On, ring, s, p, fromBucket, salt);
            && s'.Keys == s.Keys && (forall q :: q in s && q != p ==> s'[q] == s[q])
            && Bound(ring, p, s'[p]) && SameData(s[p], s'[p])
            && (if outcome.AlreadyBound? then s' == s && Bound(ring, p, s[p]) else outcome.Rebound?)
  {
    hide WrappedUnder, WrapActive, Unwrap;
    var o, own := s[p], BindingOf(p);
    ActiveWraps(ring, o.dek, own, salt, o.meta.rest);
    assert WrapActive(ring, o.dek, own, salt, o.meta.rest).rest == o.meta.rest by { KeepsRest(ring, o.dek, own, salt, o.meta.rest); }
    if WrappedUnder(ring, o.meta, o.dek, own) {
      Unwraps(ring, o.meta, o.dek, own, own);
    } else if WrappedUnder(ring, o.meta, o.dek, []) {
      Unwraps(ring, o.meta, o.dek, [], own);
      Unwraps(ring, o.meta, o.dek, [], []);
    } else {
      var was := BindingOf(Path(fromBucket.value, p.key));
      Unwraps(ring, o.meta, o.dek, was, own);
      Unwraps(ring, o.meta, o.dek, was, []);
      Unwraps(ring, o.meta, o.dek, was, was);
    }
  }

  lemma KeepsRest(ring: Keyring, dek: Bytes, binding: Bytes, salt: Bytes, rest: Bytes)
    ensures WrapActive(ring, dek, binding, salt, rest).rest == rest
  {
  }

  /** A second migration finds nothing to do. */
  lemma RebindIsIdempotent(ring: Keyring, s: Store, p: Path, fromBucket: Option<Bytes>, salt: Bytes)
    requires ReadWrite(ring) && p in s && Bound(ring, p, s[p])
    ensures RebindStep(On, ring, s, p, fromBucket, salt) == (s, if s[p].V1? then AlreadyBound else NotV1)
  {
    if s[p].V1? {
      Unwraps(ring, s[p].meta, s[p].dek, BindingOf(p), BindingOf(p));
    }
  }

  /** Binding protects: a wrapped key that is bound to one path opens at no other, neither
      under strict binding nor with the retry for unbound keys. */
  lemma BoundElsewhereFails(ring: Keyring, p: Path, q: Path, meta: Meta, dek: Bytes)
    requires Binds(ring.w) && WrappedUnder(ring, meta, dek, BindingOf(p))
    requires p != q && 0 !in p.bucket && 0 !in q.bucket
    ensures ResolveKey(On, ring, meta, q) == Err(UnwrapFailed) && ResolveKey(Strict, ring, meta, q) == Err(UnwrapFailed)
  {
    hide BindingOf, WrappedUnder, Unwrap, Binds;
    if BindingOf(p) == BindingOf(q) {
      BindingInjective(p, q);
    }
    Unwraps(ring, meta, dek, BindingOf(p), BindingOf(q));
    Unwraps(ring, meta, dek, BindingOf(p), []);
  }

  /** So after a migration an object moved behind the proxy's back is refused, wherever it
      is put. */
  lemma MovedIsRefused(ring: Keyring, s: Store, p: Path, fromBucket: Option<Bytes>, salt: Bytes, q: Path)
    requires ReadWrite(ring) && p in s && s[p].V1? && Bindable(ring, p, s[p], fromBucket)
    requires p != q && 0 !in p.bucket && 0 !in q.bucket
    ensures var moved := RebindStep(On, ring, s, p, fromBucket, salt).0;
            && p in moved && moved[p].V1?
            && ResolveKey(On, ring, moved[p].meta, p) == Ok(s[p].dek)
            && ResolveKey(On, ring, moved[p].meta, q) == Err(UnwrapFailed)
            && ResolveKey(Strict, ring, moved[p].meta, q) == Err(UnwrapFailed)
  {
    hide WrappedUnder, Unwrap, ResolveKey, RebindStep, Bindable, Binds;
    RebindBinds(ring, s, p, fromBucket, salt);
    var o := RebindStep(On, ring, s, p, fromBucket, salt).0[p];
    OwnedResolves(ring, p, o);
    BoundElsewhereFails(ring, p, q, o.meta, o.dek);
  }

  lemma BoundIsStrict(ring: Keyring, p: Path, o: Object)
    requires Binds(ring.w) && o.V1? && Bound(ring, p, o)
    ensures ResolveKey(Strict, ring, o.meta, p) == Ok(o.dek)
  {
    Unwraps(ring, o.meta, o.dek, BindingOf(p), BindingOf(p));
  }

  datatype Report = Report(rebound: nat, alreadyBound: nat, notV1: nat, failed: seq<Path>)

  function Counting(report: Report, p: Path, outcome: RebindOutcome): Report {
    match outcome
    case Rebound => report.(rebound := report.rebound + 1)
    case AlreadyBound => report.(alreadyBound := report.alreadyBound + 1)
    case NotV1 => report.(notV1 := report.notV1 + 1)
    case Failed => report.(failed := report.failed + [p])
  }

  function OutcomeOf(ring: Keyring, s: Store, p: Path, fromBucket: Option<Bytes>): RebindOutcome {
    RebindStep(On, ring, s, p, fromBucket, []).1
  }

  /** What the outcomes on one and the same store add up to. */
  function Tally(ring: Keyring, s: Store, listing: seq<Path>, fromBucket: Option<Bytes>): Report {
    if |listing| == 0 then Report(0, 0, 0, [])
    else
      var p := listing[|listing| - 1];
      Counting(Tally(ring, s, listing[..|listing| - 1], fromBucket), p, OutcomeOf(ring, s, p, fromBucket))
  }

  /** A rebind reads and writes its own object only, so workers that take the listed objects
      in any order, and in any interleaving, do the same. */
  lemma RebindIsLocal(ring: Keyring, s: Store, t: Store, p: Path, fromBucket: Option<Bytes>, salt: Bytes)
    requires p in s && p in t && s[p] == t[p]
    ensures var (s', outcome), (t', outcome') := RebindStep(On, ring, s, p, fromBucket, salt), RebindStep(On, ring, t, p, fromBucket, salt);
            && outcome == outcome' == OutcomeOf(ring, s, p, fromBucket)
            && s'.Keys == s.Keys && t'.Keys == t.Keys && s'[p] == t'[p]
            && (forall q :: q in s && q != p ==> s'[q] == s[q]) && (forall q :: q in t && q != p ==> t'[q] == t[q])
  {
    hide Unwrap, WrapActive;
  }

  /** The object's key unwraps under its own binding, or the object is not encrypted. */
  predicate OpensHere(ring: Keyring, p: Path, o: Object) {
    o.V1? ==> Unwrap(ring, o.meta, BindingOf(p)).Ok?
  }

  /** A rebind that does not fail leaves an object that opens under its own binding. */
  lemma RebindOpens(ring: Keyring, s: Store, p: Path, fromBucket: Option<Bytes>, salt: Bytes)
    requires ReadWrite(ring)
    ensures var (s', outcome) := RebindStep(On, ring, s, p, fromBucket, salt);
            && (outcome.Failed? ==> s' == s)
            && (!outcome.Failed? ==> p in s && s'.Keys == s.Keys && OpensHere(ring, p, s'[p]) && SameData(s[p], s'[p]))
  {
    hide Unwrap, WrapActive;
    var outcome := RebindStep(On, ring, s, p, fromBucket, salt).1;
    if outcome.Rebound? {
      var meta, own := s[p].meta, BindingOf(p);
      var unbound := Unwrap(ring, meta, []);
      var found := if unbound.Ok? || fromBucket.None? then unbound else Unwrap(ring, meta, BindingOf(Path(fromBucket.value, p.key)));
      ActiveWraps(ring, found.value, own, salt, meta.rest);
      Unwraps(ring, WrapActive(ring, found.value, own, salt, meta.rest), found.value, own, own);
      KeepsRest(ring, found.value, own, salt, meta.rest);
    }
  }

  predicate Distinct(listing: seq<Path>) {
    forall i, j :: 0 <= i < j < |listing| ==> listing[i] != listing[j]
  }

  /** Everything checkpointed opens under its own binding. */
  ghost predicate Checkpointed(ring: Keyring, s: Store, done: set<Path>) {
    forall p :: p in done && p in s ==> OpensHere(ring, p, s[p])
  }

  /** The migration of what a checkpoint leaves of a listing. A dry run changes nothing and
      reports what the real run does. A real run changes no data; what it does not report as
      failed opens under its own binding and is checkpointed, so a later run may go on from
      there; and it fails on nothing that is unbound, bound to its path or bound to the
      bucket it was restored from. */
  method RebindAll(ring: Keyring, s: Store, listing: seq<Path>, fromBucket: Option<Bytes>, salts: nat -> Bytes,
                   checkpoint: set<Path>, dryRun: bool)
    returns (end: Store, report: Report, done: set<Path>)
    requires ReadWrite(ring) && Distinct(listing)
    ensures report == Tally(ring, s, Pending(listing, checkpoint), fromBucket)
    ensures end.Keys == s.Keys && forall p :: p in s ==> SameData(s[p], end[p])
    ensures forall p :: p in s && (p !in listing || p in checkpoint || p in report.failed) ==> end[p] == s[p]
    ensures if dryRun then end == s && done == checkpoint
            else done == DoneWith(checkpoint, listing, report.failed)
    ensures Checkpointed(ring, s, checkpoint) ==> Checkpointed(ring, end, done)
    ensures forall p :: p in report.failed ==> p in listing && !(p in s && Bindable(ring, p, s[p], fromBucket))
    ensures !dryRun ==>
              forall p :: p in listing && p !in checkpoint && p in s && Bindable(ring, p, s[p], fromBucket) && end[p].V1? ==>
                ResolveKey(Strict, ring, end[p].meta, p) == Ok(end[p].dek)
    ensures report.rebound + report.alreadyBound + report.notV1 + |report.failed| == |Pending(listing, checkpoint)|
  {
    hide Bindable, ResolveKey, RebindStep, SameData, OpensHere, Tally, Unwrap, Binds, Progress, DoneWith, Pending, Checkpointed, Distinct, OutcomeOf;
    var pending := Pending(listing, checkpoint);
    end, report, done := s, Report(0, 0, 0, []), checkpoint;
    NothingMigrated(ring, s, pending, checkpoint, fromBucket, dryRun);
    for i := 0 to |pending|
      invariant report == Tally(ring, s, pending[..i], fromBucket)
      invariant Progress(ring, s, pending[..i], report.failed, end, fromBucket, dryRun)
      invariant done == if dryRun then checkpoint else DoneWith(checkpoint, pending[..i], report.failed)
    {
      var p := pending[i];
      var (next, outcome) := RebindStep(On, ring, end, p, fromBucket, salts(i));
      NextPending(listing, checkpoint, i);
      ProgressStep(ring, s, pending[..i], report.failed, end, p, fromBucket, dryRun, salts(i));
      TallyStep(ring, s, pending, i, fromBucket);
      DoneStep(ring, s, checkpoint, pending[..i], report.failed, end, p, fromBucket, dryRun);
      report := Counting(report, p, outcome);
      if !outcome.Failed? && !dryRun {
        end, done := next, done + {p};
      }
    }
    assert pending[..|pending|] == pending;
    MigrationEnds(ring, s, listing, checkpoint, report.failed, end, fromBucket, dryRun);
    TallyCounts(ring, s, pending, fromBucket);
  }

  /** The checkpoint with what was handled and did not fail. */
  function DoneWith(checkpoint: set<Path>, past: seq<Path>, failed: seq<Path>): set<Path> {
    checkpoint + set p | p in past && p !in failed
  }

  lemma NextPending(listing: seq<Path>, checkpoint: set<Path>, i: nat)
    requires Distinct(listing) && i < |Pending(listing, checkpoint)|
    ensures var pending := Pending(listing, checkpoint);
            pending[i] !in pending[..i] && pending[..i + 1] == pending[..i] + [pending[i]]
  {
    PendingOf(listing, checkpoint);
  }

  lemma DoneStep(ring: Keyring, s: Store, checkpoint: set<Path>, past: seq<Path>, failed: seq<Path>, end: Store, p: Path,
                 fromBucket: Option<Bytes>, dryRun: bool)
    requires Progress(ring, s, past, failed, end, fromBucket, dryRun) && p !in past
    ensures DoneWith(checkpoint, past + [p], failed + [p]) == DoneWith(checkpoint, past, failed)
    ensures DoneWith(checkpoint, past + [p], failed) == DoneWith(checkpoint, past, failed) + {p}
  {
    assert p !in failed;
  }

  lemma MigrationEnds(ring: Keyring, s: Store, listing: seq<Path>, checkpoint: set<Path>, failed: seq<Path>, end: Store,
                      fromBucket: Option<Bytes>, dryRun: bool)
    requires ReadWrite(ring)
    requires Distinct(listing) && Progress(ring, s, Pending(listing, checkpoint), failed, end, fromBucket, dryRun)
    ensures end.Keys == s.Keys && forall p :: p in s ==> SameData(s[p], end[p])
    ensures forall p :: p in s && (p !in listing || p in checkpoint || p in failed) ==> end[p] == s[p]
    ensures dryRun ==> end == s
    ensures forall p :: p in failed ==> p in listing && !(p in s && Bindable(ring, p, s[p], fromBucket))
    ensures DoneWith(checkpoint, Pending(listing, checkpoint), failed) == DoneWith(checkpoint, listing, failed)
    ensures !dryRun ==>
              forall p :: p in listing && p !in checkpoint && p in s && Bindable(ring, p, s[p], fromBucket) && end[p].V1? ==>
                ResolveKey(Strict, ring, end[p].meta, p) == Ok(end[p].dek)
    ensures Checkpointed(ring, s, checkpoint) ==>
              Checkpointed(ring, end, if dryRun then checkpoint else DoneWith(checkpoint, listing, failed))
  {
    hide Bindable, SameData, OpensHere, Bound, ResolveKey, Binds;
    PendingOf(listing, checkpoint);
    forall p | !dryRun && p in listing && p !in checkpoint && p in s && Bindable(ring, p, s[p], fromBucket) && end[p].V1?
      ensures ResolveKey(Strict, ring, end[p].meta, p) == Ok(end[p].dek)
    {
      BoundIsStrict(ring, p, end[p]);
    }
  }

  /** How far a migration has got: what it has not touched, what it failed on and what it
      has bound. */
  ghost predicate Progress(ring: Keyring, s: Store, past: seq<Path>, failed: seq<Path>, end: Store, fromBucket: Option<Bytes>, dryRun: bool) {
    && end.Keys == s.Keys && (forall p :: p in s ==> SameData(s[p], end[p]))
    && (forall p :: p in s && (p !in past || p in failed) ==> end[p] == s[p])
    && (forall p :: p in failed ==> p in past && !(p in s && Bindable(ring, p, s[p], fromBucket)))
    && if dryRun then end == s
       else forall p :: p in past && p !in failed ==>
              p in s && OpensHere(ring, p, end[p]) && (Bindable(ring, p, s[p], fromBucket) ==> Bound(ring, p, end[p]))
  }

  lemma ProgressStep(ring: Keyring, s: Store, past: seq<Path>, failed: seq<Path>, end: Store, p: Path, fromBucket: Option<Bytes>,
                     dryRun: bool, salt: Bytes)
    requires ReadWrite(ring) && Progress(ring, s, past, failed, end, fromBucket, dryRun) && p !in past
    ensures var (next, outcome) := RebindStep(On, ring, end, p, fromBucket, salt);
            && outcome == OutcomeOf(ring, s, p, fromBucket)
            && Progress(ring, s, past + [p], if outcome.Failed? then failed + [p] else failed,
                        if outcome.Failed? || dryRun then end else next, fromBucket, dryRun)
  {
    hide Bindable, Bound, RebindStep, SameData, OpensHere, OutcomeOf, Binds;
    MigratesOne(ring, s, end, p, fromBucket, salt);
  }

  /** The listed objects that a checkpoint does not name, in order. */
  function Pending(listing: seq<Path>, checkpoint: set<Path>): seq<Path> {
    if |listing| == 0 then []
    else
      var n := |listing| - 1;
      Pending(listing[..n], checkpoint) + (if listing[n] in checkpoint then [] else [listing[n]])
  }

  lemma {:induction false} PendingOf(listing: seq<Path>, checkpoint: set<Path>)
    requires Distinct(listing)
    ensures Distinct(Pending(listing, checkpoint))
    ensures forall p :: p in Pending(listing, checkpoint) <==> p in listing && p !in checkpoint
  {
    if |listing| > 0 {
      var n := |listing| - 1;
      PendingOf(listing[..n], checkpoint);
      assert listing[n] !in listing[..n];
      assert forall p :: p in listing <==> p in listing[..n] || p == listing[n];
    }
  }

  lemma NothingMigrated(ring: Keyring, s: Store, pending: seq<Path>, checkpoint: set<Path>, fromBucket: Option<Bytes>, dryRun: bool)
    ensures Tally(ring, s, pending[..0], fromBucket) == Report(0, 0, 0, []) && DoneWith(checkpoint, pending[..0], []) == checkpoint
    ensures Progress(ring, s, pending[..0], [], s, fromBucket, dryRun)
  {
  }

  lemma {:induction false} TallyCounts(ring: Keyring, s: Store, listing: seq<Path>, fromBucket: Option<Bytes>)
    ensures var r := Tally(ring, s, listing, fromBucket); r.rebound + r.alreadyBound + r.notV1 + |r.failed| == |listing|
  {
    hide OutcomeOf;
    if |listing| > 0 {
      TallyCounts(ring, s, listing[..|listing| - 1], fromBucket);
    }
  }

  lemma TallyStep(ring: Keyring, s: Store, pending: seq<Path>, i: nat, fromBucket: Option<Bytes>)
    requires i < |pending|
    ensures Tally(ring, s, pending[..i + 1], fromBucket)
            == Counting(Tally(ring, s, pending[..i], fromBucket), pending[i], OutcomeOf(ring, s, pending[i], fromBucket))
  {
    assert pending[..i + 1][..i] == pending[..i];
  }

  lemma MigratesOne(ring: Keyring, s: Store, now: Store, p: Path, fromBucket: Option<Bytes>, salt: Bytes)
    requires ReadWrite(ring) && now.Keys == s.Keys && (p in s ==> now[p] == s[p])
    ensures var (next, outcome) := RebindStep(On, ring, now, p, fromBucket, salt);
            && outcome == OutcomeOf(ring, s, p, fromBucket)
            && (p in s && Bindable(ring, p, s[p], fromBucket) ==> !outcome.Failed?)
            && (!outcome.Failed? ==>
                  && p in s && next.Keys == now.Keys && (forall q :: q in now && q != p ==> next[q] == now[q])
                  && OpensHere(ring, p, next[p]) && SameData(s[p], next[p])
                  && (Bindable(ring, p, s[p], fromBucket) ==> Bound(ring, p, next[p])))
  {
    hide WrappedUnder, Unwrap, WrapActive, RebindStep, OpensHere;
    NoSuchObject(ring, s, now, p, fromBucket, salt);
    if p in s {
      RebindIsLocal(ring, s, now, p, fromBucket, salt);
      RebindOpens(ring, now, p, fromBucket, salt);
      if s[p].V1? && Bindable(ring, p, s[p], fromBucket) {
        RebindBinds(ring, now, p, fromBucket, salt);
      }
    }
  }

  lemma NoSuchObject(ring: Keyring, s: Store, now: Store, p: Path, fromBucket: Option<Bytes>, salt: Bytes)
    ensures p !in s ==> OutcomeOf(ring, s, p, fromBucket).Failed?
    ensures p !in now ==> RebindStep(On, ring, now, p, fromBucket, salt).1.Failed?
    ensures p in s && s[p].Plain? ==> OutcomeOf(ring, s, p, fromBucket).NotV1?
  {
  }
}
