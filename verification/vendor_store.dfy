/** Password hashing as the vendor handlers use it (bcryptjs). bcrypt keys
    its cipher with the UTF-8 bytes of the password followed by a NUL byte,
    read cyclically into 72 bytes; the salt, the cost factor and the cipher
    itself are outside the model. `Hash` is a stand-in that keeps the whole
    password after the version prefix, and `Compare` accepts a password
    exactly when its 72-byte key is the key of the stored one. */
module Crypto {

  const Prefix: string := "$2a$10$"

  /** Bytes of the key bcrypt feeds to its cipher. */
  const KeyLength: nat := 72

  // ---------------------------------------------------------------------
  // UTF-8

  /** The number of bytes of a UTF-8 sequence with this first byte. */
  function Utf8Width(lead: int): nat {
    if lead < 0x80 then 1 else if lead < 0xE0 then 2 else if lead < 0xF0 then 3 else 4
  }

  /** The UTF-8 encoding of one character: up to four bytes, the first
      of which gives the length, and a zero byte only for NUL itself. */
  function Utf8(c: char): (b: seq<int>)
    ensures 1 <= |b| <= 4 && |b| == Utf8Width(b[0])
    ensures forall k :: 0 <= k < |b| ==> 0 <= b[k] < 256
    ensures 0 in b <==> c == '\0'
  {
    var v := c as int;
    var r := v / 64;
    var r2 := r / 64;
    if v < 0x80 then [v]
    else if v < 0x800 then [0xC0 + r, 0x80 + v % 64]
    else if v < 0x10000 then [0xE0 + r2, 0x80 + r % 64, 0x80 + v % 64]
    else [0xF0 + r2 / 64, 0x80 + r2 % 64, 0x80 + r % 64, 0x80 + v % 64]
  }

  lemma Utf8Injective(c: char, d: char)
    requires Utf8(c) == Utf8(d)
    ensures c == d
  {
    var v, w := c as int, d as int;
    var b := Utf8(c);
    if |b| >= 2 {
      assert v % 64 == w % 64;
    }
    if |b| == 4 {
      assert (v / 64 / 64) / 64 == (w / 64 / 64) / 64;
      assert (v / 64 / 64) % 64 == (w / 64 / 64) % 64;
      assert (v / 64) % 64 == (w / 64) % 64;
    }
  }

  /** The UTF-8 encoding of a string. */
  function Utf8Bytes(s: string): (b: seq<int>)
    ensures |b| >= |s|
    ensures forall k :: 0 <= k < |b| ==> 0 <= b[k] < 256
  {
    if |s| == 0 then [] else Utf8(s[0]) + Utf8Bytes(s[1..])
  }

  lemma {:induction false} Utf8BytesConcat(a: string, x: string)
    ensures Utf8Bytes(a + x) == Utf8Bytes(a) + Utf8Bytes(x)
  {
    if |a| > 0 {
      assert (a + x)[1..] == a[1..] + x;
      Utf8BytesConcat(a[1..], x);
    } else {
      assert a + x == x;
    }
  }

  lemma {:induction false} Utf8BytesNoZero(s: string)
    requires '\0' !in s
    ensures 0 !in Utf8Bytes(s)
  {
    if |s| > 0 {
      assert s[0] != '\0' && '\0' !in s[1..];
      Utf8BytesNoZero(s[1..]);
    }
  }

  /** Different strings have different encodings. */
  lemma {:induction false} Utf8BytesInjective(p: string, q: string)
    requires Utf8Bytes(p) == Utf8Bytes(q)
    ensures p == q
  {
    if |p| > 0 {
      var b := Utf8Bytes(p);
      var u, v := Utf8(p[0]), Utf8(q[0]);
      assert u[0] == b[0] == v[0];
      assert u == b[..|u|] == v;
      Utf8Injective(p[0], q[0]);
      assert Utf8Bytes(p[1..]) == b[|u|..] == Utf8Bytes(q[1..]);
      Utf8BytesInjective(p[1..], q[1..]);
      assert p == [p[0]] + p[1..] && q == [q[0]] + q[1..];
    }
  }

  // ---------------------------------------------------------------------
  // The bcrypt key

  /** The password's bytes and the terminating NUL that `$2a$`/`$2b$`
      hashes include. */
  function KeyStream(p: string): (s: seq<int>)
    ensures |s| > 0
  {
    Utf8Bytes(p) + [0]
  }

  /** The 72 bytes the cipher is keyed with: the stream, repeated. */
  function Key(p: string): (k: seq<int>)
    ensures |k| == KeyLength
  {
    var s := KeyStream(p);
    seq(KeyLength, i requires 0 <= i < KeyLength => s[i % |s|])
  }

  /** Within the first pass over the stream, the key is the stream. */
  lemma KeyAt(p: string, i: int)
    requires 0 <= i < KeyLength && i < |KeyStream(p)|
    ensures Key(p)[i] == KeyStream(p)[i]
  {
    assert i % |KeyStream(p)| == i;
  }

  /** `bcrypt.hash(password, 10)` */
  function Hash(password: string): (h: string)
    ensures h != password
  {
    Prefix + password
  }

  /** `bcrypt.compare(password, hash)`: the key of the password against
      the key of the hashed one. */
  predicate Compare(password: string, hash: string) {
    |Prefix| <= |hash| && hash[..|Prefix|] == Prefix && Key(hash[|Prefix|..]) == Key(password)
  }

  /** A stored hash matches exactly the passwords with the same key. */
  lemma CompareHash(p: string, q: string)
    ensures Compare(q, Hash(p)) <==> Key(q) == Key(p)
  {
    assert Hash(p)[..|Prefix|] == Prefix;
    assert Hash(p)[|Prefix|..] == p;
  }

  /** A password of at most 71 bytes without a NUL character is the only
      one with its key. */
  lemma ShortKeyDetermines(p: string, q: string)
    requires '\0' !in p && '\0' !in q
    requires |Utf8Bytes(p)| < KeyLength && |Utf8Bytes(q)| < KeyLength
    ensures Key(p) == Key(q) <==> p == q
  {
    if Key(p) == Key(q) {
      var s, t := KeyStream(p), KeyStream(q);
      Utf8BytesNoZero(p);
      Utf8BytesNoZero(q);
      if |s| < |t| {
        KeyAt(p, |s| - 1);
        KeyAt(q, |s| - 1);
        assert false;
      }
      if |t| < |s| {
        KeyAt(p, |t| - 1);
        KeyAt(q, |t| - 1);
        assert false;
      }
      forall i | 0 <= i < |s| - 1
        ensures Utf8Bytes(p)[i] == Utf8Bytes(q)[i]
      {
        KeyAt(p, i);
        KeyAt(q, i);
      }
      assert Utf8Bytes(p) == Utf8Bytes(q);
      Utf8BytesInjective(p, q);
    }
  }

  /** Only the first 72 bytes of a longer password reach the key. */
  lemma LongKey(p: string)
    requires |Utf8Bytes(p)| >= KeyLength
    ensures Key(p) == Utf8Bytes(p)[..KeyLength]
  {
    forall i | 0 <= i < KeyLength
      ensures Key(p)[i] == Utf8Bytes(p)[i]
    {
      KeyAt(p, i);
    }
  }

  /** Passwords that agree on their first 72 bytes match each other's
      hash, whatever follows. */
  lemma SharedPrefixMatches(a: string, x: string, y: string)
    requires |Utf8Bytes(a)| >= KeyLength
    ensures Compare(a + y, Hash(a + x))
  {
    Utf8BytesConcat(a, x);
    Utf8BytesConcat(a, y);
    LongKey(a + x);
    LongKey(a + y);
    assert Utf8Bytes(a + x)[..KeyLength] == Utf8Bytes(a)[..KeyLength] == Utf8Bytes(a + y)[..KeyLength];
    CompareHash(a + x, a + y);
  }

  /** Seventy-two 'a's followed by "1", and the same followed by "2":
      different passwords, one accepted against the other's hash. */
  lemma LongPasswordsCollide()
    ensures var a := seq(72, _ => 'a');
            a + "1" != a + "2" && Compare(a + "2", Hash(a + "1"))
  {
    var a := seq(72, _ => 'a');
    assert (a + "1")[72] != (a + "2")[72];
    SharedPrefixMatches(a, "1", "2");
  }
}

/** The vendor collection as both handlers see it, and the JSON responses
    they return. The collection is a sequence in insertion order, so that
    `findOne` is the first match. */
module VendorStore {
  import opened Common

  datatype Vendor = Vendor(
    id: Id, name: string, phone: string, email: string,
    shopName: string, address: string, password: string)

  type Store = seq<Vendor>

  datatype Body =
    | Message(text: string)
    | VendorInfo(id: Id, email: string, name: string)

  datatype Response = Response(status: int, body: Body)

  /** `!value` for a JSON string field: absent, null, or "". */
  predicate Missing(o: Option<string>) {
    o.None? || o.value == ""
  }

  predicate EmailTaken(store: Store, email: string) {
    exists k | 0 <= k < |store| :: store[k].email == email
  }

  predicate IdTaken(store: Store, id: Id) {
    exists k | 0 <= k < |store| :: store[k].id == id
  }

  /** `Vendor.findOne({ email, _id: id })`: the first record matching both. */
  function FindOne(store: Store, email: string, id: Id): (r: Option<Vendor>)
    ensures r.Some? ==> r.value in store && r.value.email == email && r.value.id == id
    ensures r.None? <==> !exists k | 0 <= k < |store| :: store[k].email == email && store[k].id == id
  {
    if |store| == 0 then None
    else if store[0].email == email && store[0].id == id then Some(store[0])
    else
      var r := FindOne(store[1..], email, id);
      assert forall k | 1 <= k < |store| :: store[k] == store[1..][k - 1];
      r
  }

  /** A record appended behind every earlier match is found only when no
      earlier record matches. */
  lemma {:induction false} FindOneAppend(store: Store, v: Vendor, email: string, id: Id)
    requires v.email == email && v.id == id
    requires FindOne(store, email, id).None?
    ensures FindOne(store + [v], email, id) == Some(v)
  {
    if |store| > 0 {
      assert (store + [v])[1..] == store[1..] + [v];
      FindOneAppend(store[1..], v, email, id);
    }
  }
}
