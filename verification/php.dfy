/** The slice of PHP's value model the save gateway and the widget rely on:
    decoded JSON values, `isset`, `??`, the `(bool)` cast and the decimal
    rendering of an integer inside a double-quoted string. */
module Php {
  import opened Wrappers

  /** An array key: PHP stores decimal-integer keys as integers. */
  datatype Key = IntKey(n: int) | StrKey(s: string)

  /** A value as `json_decode($json, true)` produces it, floats taken as
      reals. An array's entries are in PHP's iteration order. */
  datatype Value =
    | Null
    | Bool(b: bool)
    | Int(i: int)
    | Float(f: real)
    | Str(s: string)
    | Array(entries: seq<(Key, Value)>)

  /** The value stored under `k`, searched in iteration order. */
  function Lookup(entries: seq<(Key, Value)>, k: Key): Option<Value> {
    if entries == [] then None
    else if entries[0].0 == k then Some(entries[0].1)
    else Lookup(entries[1..], k)
  }

  /** The lookup finds the value of the first entry with the key, and
      nothing when no entry has it. */
  lemma {:induction false} LookupFindsFirst(entries: seq<(Key, Value)>, k: Key)
    ensures Lookup(entries, k).None? <==> forall i :: 0 <= i < |entries| ==> entries[i].0 != k
    ensures Lookup(entries, k).Some? ==>
      exists i :: 0 <= i < |entries| && entries[i] == (k, Lookup(entries, k).value) && (forall j :: 0 <= j < i ==> entries[j].0 != k)
  {
    if entries != [] && entries[0].0 != k {
      LookupFindsFirst(entries[1..], k);
      if Lookup(entries, k).Some? {
        var i :| 0 <= i < |entries| - 1 && entries[1..][i] == (k, Lookup(entries, k).value) && (forall j :: 0 <= j < i ==> entries[1..][j].0 != k);
        assert entries[i + 1] == (k, Lookup(entries, k).value);
        assert forall j :: 0 <= j < i + 1 ==> entries[j].0 != k by {
          forall j | 0 <= j < i + 1 ensures entries[j].0 != k {
            if j > 0 { assert entries[1..][j - 1] == entries[j]; }
          }
        }
      } else {
        assert forall i :: 0 <= i < |entries| - 1 ==> entries[1..][i] == entries[i + 1];
      }
    }
  }

  function Field(name: string): Key {
    StrKey(name)
  }

  /** `isset($a[name])`: `$a` is an array holding a non-null value there. */
  predicate Isset(a: Value, name: string) {
    a.Array? && Lookup(a.entries, Field(name)).Some? && Lookup(a.entries, Field(name)).value != Null
  }

  /** `$a[name] ?? $default`. */
  function Coalesce(a: Value, name: string, default: Value): (r: Value)
    ensures Isset(a, name) ==> a.Array? && Lookup(a.entries, Field(name)) == Some(r)
    ensures !Isset(a, name) ==> r == default
  {
    if Isset(a, name) then Lookup(a.entries, Field(name)).value else default
  }

  /** The `(bool)` cast. */
  function ToBool(v: Value): (r: bool)
    ensures !r <==> v in {Null, Bool(false), Int(0), Float(0.0), Str(""), Str("0"), Array([])}
  {
    match v
    case Null => false
    case Bool(b) => b
    case Int(i) => i != 0
    case Float(f) => f != 0.0
    case Str(s) => s != "" && s != "0"
    case Array(entries) => entries != []
  }

  predicate IsDigit(c: char) {
    '0' <= c <= '9'
  }

  function Digit(d: nat): (c: char)
    requires d < 10
    ensures IsDigit(c)
  {
    ['0', '1', '2', '3', '4', '5', '6', '7', '8', '9'][d]
  }

  /** The decimal digits of `n`, most significant first, without leading zeros. */
  function NatToString(n: nat): (r: string)
    ensures |r| >= 1
    ensures n >= 10 <==> |r| >= 2
    ensures forall i :: 0 <= i < |r| ==> IsDigit(r[i])
  {
    if n < 10 then [Digit(n)] else NatToString(n / 10) + [Digit(n % 10)]
  }

  /** An integer interpolated into a string: its decimal digits, with a
      leading minus sign when negative. */
  function IntToString(n: int): (r: string)
    ensures |r| >= 1
    ensures n < 0 <==> r[0] == '-'
  {
    if n < 0 then "-" + NatToString(-n) else NatToString(n)
  }

  lemma DigitInjective(a: nat, b: nat)
    requires a < 10 && b < 10 && Digit(a) == Digit(b)
    ensures a == b
  {
  }

  lemma {:induction false} NatToStringInjective(a: nat, b: nat)
    requires NatToString(a) == NatToString(b)
    ensures a == b
    decreases a
  {
    var s := NatToString(a);
    if a >= 10 && b >= 10 {
      assert s[|s| - 1] == Digit(a % 10) && s[|s| - 1] == Digit(b % 10);
      DigitInjective(a % 10, b % 10);
      assert s[..|s| - 1] == NatToString(a / 10) && s[..|s| - 1] == NatToString(b / 10);
      NatToStringInjective(a / 10, b / 10);
    } else if a < 10 && b < 10 {
      assert s[0] == Digit(a) && s[0] == Digit(b);
      DigitInjective(a, b);
    }
  }

  /** Distinct integers give distinct strings, so distinct users get
      distinct option keys. */
  lemma IntToStringInjective(a: int, b: int)
    requires IntToString(a) == IntToString(b)
    ensures a == b
  {
    var s := IntToString(a);
    if a < 0 && b < 0 {
      assert s[1..] == NatToString(-a) && s[1..] == NatToString(-b);
      NatToStringInjective(-a, -b);
    } else if a >= 0 && b >= 0 {
      NatToStringInjective(a, b);
    }
  }
}
