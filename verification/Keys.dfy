// Keys of the hash table (src/ds/pht_hashtable.c, src/pht_string.c). A table
// mixes integer keys (a NULL string pointer, the integer used as its own hash)
// with string keys hashed by a function of Zend's that is left as a parameter.

module Options {
  datatype Option<+T> = None | Some(value: T)
}

module Keys {
  import opened Options

  datatype Key = Int(n: int) | Str(s: string)

  // The pointer and the hash that the "direct" functions receive for a key.
  function Pointer(k: Key): Option<string>
  {
    match k
    case Int(_) => None
    case Str(s) => Some(s)
  }

  function Hash(k: Key, hashOf: string -> int): int
  {
    match k
    case Int(n) => n
    case Str(s) => hashOf(s)
  }

  // strncmp(a, b, n) == 0: equality up to n characters or the first NUL.
  predicate StrncmpEq(a: string, b: string, n: nat)
    requires n <= |a| && n <= |b|
    decreases n
  {
    n == 0 || (a[0] == b[0] && (a[0] == '\0' || StrncmpEq(a[1..], b[1..], n - 1)))
  }

  // pht_str_eq
  predicate StrEq(a: string, b: string)
  {
    |a| == |b| && StrncmpEq(a, b, |b|)
  }

  // The part of a string that strncmp can see.
  function Visible(s: string): string
  {
    if s == [] || s[0] == '\0' then [] else [s[0]] + Visible(s[1..])
  }

  predicate NulFree(s: string)
  {
    '\0' !in s
  }

  lemma {:induction false} StrEqIsVisibleEquality(a: string, b: string)
    ensures StrEq(a, b) <==> |a| == |b| && Visible(a) == Visible(b)
    decreases |a|
  {
    if |a| == |b| && |a| > 0 {
      StrEqIsVisibleEquality(a[1..], b[1..]);
      if a[0] != '\0' && b[0] != '\0' {
        assert Visible(a)[1..] == Visible(a[1..]);
        assert Visible(b)[1..] == Visible(b[1..]);
      }
    }
  }

  lemma {:induction false} NulFreeIsVisible(s: string)
    requires NulFree(s)
    ensures Visible(s) == s
  {
    if s != [] {
      NulFreeIsVisible(s[1..]);
    }
  }

  // What the table can tell apart. Two string keys are one key to it when they
  // have the same hash, the same length and the same visible part.
  datatype Ident = IntId(n: int) | StrId(hash: int, length: nat, visible: string)
  {
    function HashOf(): int
    {
      if IntId? then n else hash
    }
  }

  function IdentOf(key: Option<string>, hash: int): Ident
  {
    match key
    case None => IntId(hash)
    case Some(s) => StrId(hash, |s|, Visible(s))
  }

  function Id(k: Key, hashOf: string -> int): Ident
  {
    IdentOf(Pointer(k), Hash(k, hashOf))
  }

  // The condition on which search, update and delete recognise a bucket:
  // equal hashes, both pointers NULL or neither, and equal strings if neither.
  predicate SameKey(key1: Option<string>, hash1: int, key2: Option<string>, hash2: int)
  {
    && hash1 == hash2
    && (key1.Some? <==> key2.Some?)
    && (key2.None? || StrEq(key1.value, key2.value))
  }

  lemma SameKeyIsSameIdent(key1: Option<string>, hash1: int, key2: Option<string>, hash2: int)
    ensures SameKey(key1, hash1, key2, hash2) <==> IdentOf(key1, hash1) == IdentOf(key2, hash2)
  {
    if key1.Some? && key2.Some? {
      StrEqIsVisibleEquality(key1.value, key2.value);
    }
  }

  predicate PlainKey(k: Key)
  {
    k.Str? ==> NulFree(k.s)
  }

  // Keys without NUL characters are never confused, whatever the hash function;
  // keys with one are confused exactly when hash, length and visible part agree.
  lemma PlainKeysAreDistinct(k1: Key, k2: Key, hashOf: string -> int)
    requires PlainKey(k1) && PlainKey(k2)
    ensures Id(k1, hashOf) == Id(k2, hashOf) <==> k1 == k2
  {
    if k1.Str? && k2.Str? {
      NulFreeIsVisible(k1.s);
      NulFreeIsVisible(k2.s);
    }
  }

  lemma {:induction false} VisibleEnds(s: string, rest: string)
    requires forall i :: 0 <= i < |s| ==> s[i] != '\0'
    ensures Visible(s) == Visible(s + ['\0'] + rest) == s
  {
    var long := s + ['\0'] + rest;
    if s != [] {
      VisibleEnds(s[1..], rest);
      assert long[1..] == s[1..] + ['\0'] + rest;
    }
  }

  // Which keys are plain, and which others are confused: strings with the same hash,
  // the same length and the same characters up to the first NUL.
  lemma PlainKeys(k: Key)
    ensures PlainKey(k) <==> k.Int? || forall i :: 0 <= i < |k.s| ==> k.s[i] != '\0'
  {
  }

  lemma ConfusedIff(k1: Key, k2: Key, hashOf: string -> int)
    ensures Id(k1, hashOf) == Id(k2, hashOf) <==>
      || k1 == k2
      || (k1.Str? && k2.Str? && hashOf(k1.s) == hashOf(k2.s) && |k1.s| == |k2.s| && Visible(k1.s) == Visible(k2.s))
  {
  }
}
