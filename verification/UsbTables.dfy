/** The fifteen hash tables of the USB name index (src/installer/usbnames.c:141-443).

    Each table has 16 buckets and each bucket is a linked list of nodes.  A node is never
    changed once it is linked in, so a list is a value; the bucket heads are one
    two-dimensional array that insertions update in place. */
module UsbTables {

  import opened Wrappers
  import opened Bitwise
  import opened UsbHash

  type u8 = n: nat | n < 0x100
  type u16 = n: nat | n < 0x1_0000
  type u32 = n: nat | n < 0x1_0000_0000

  datatype Key =
    | Vendor(vendor: u16)
    | Product(vendor: u16, product: u16)
    | Class(class_: u8)
    | Subclass(class_: u8, subclass: u8)
    | Protocol(class_: u8, subclass: u8, protocol: u8)
    | AudioTerminal(termt: u16)
    | VideoTerminal(termt: u16)
    | Hid(descriptor: u8)
    | Report(tag: u8)
    | Hut(page: u32)
    | Bias(bias: u8)
    | Physdes(physdes: u8)
    | HutUsage(usage: u32)
    | Langid(langid: u16)
    | CountryCode(code: u32)

  const TABLES: nat := 15

  function TableOf(k: Key): (t: nat)
    ensures t < TABLES
  {
    match k
    case Vendor(_) => 0
    case Product(_, _) => 1
    case Class(_) => 2
    case Subclass(_, _) => 3
    case Protocol(_, _, _) => 4
    case AudioTerminal(_) => 5
    case VideoTerminal(_) => 6
    case Hid(_) => 7
    case Report(_) => 8
    case Hut(_) => 9
    case Bias(_) => 10
    case Physdes(_) => 11
    case HutUsage(_) => 12
    case Langid(_) => 13
    case CountryCode(_) => 14
  }

  /** The unsigned value handed to the hash; the shifts put the ids side by side. */
  function Packed(k: Key): nat {
    match k
    case Vendor(v) => v
    case Product(v, p) => v * 0x1_0000 + p
    case Class(c) => c
    case Subclass(c, s) => c * 0x100 + s
    case Protocol(c, s, p) => c * 0x1_0000 + s * 0x100 + p
    case AudioTerminal(t) => t
    case VideoTerminal(t) => t
    case Hid(d) => d
    case Report(t) => t
    case Hut(p) => p
    case Bias(b) => b
    case Physdes(p) => p
    case HutUsage(u) => u
    case Langid(l) => l
    case CountryCode(c) => c
  }

  function BucketOf(k: Key): (b: nat)
    ensures b < HASHSZ
  {
    Hash(BitsOf(Packed(k)))
  }

  datatype Chain = End | Node(key: Key, name: string, next: Chain) {

    /** The name in the first node with this key. */
    function Find(k: Key): Option<string> {
      match this
      case End => None
      case Node(key, name, next) => if key == k then Some(name) else next.Find(k)
    }

    /** Every node belongs to bucket b of table t, and no key occurs twice. */
    ghost predicate InPlace(t: nat, b: nat) {
      Node? ==>
        && TableOf(key) == t && BucketOf(key) == b
        && next.Find(key) == None
        && next.InPlace(t, b)
    }
  }

  class Names {
    const heads: array2<Chain>
    ghost var names: map<Key, string>

    ghost predicate Valid()
      reads this, heads
    {
      && heads.Length0 == TABLES && heads.Length1 == HASHSZ
      && (forall t, b :: 0 <= t < TABLES && 0 <= b < HASHSZ ==> heads[t, b].InPlace(t, b))
      && (forall k: Key :: heads[TableOf(k), BucketOf(k)].Find(k) == Get(names, k))
    }

    constructor ()
      ensures Valid() && fresh(heads) && names == map[]
    {
      heads := new Chain[TABLES, HASHSZ]((t, b) => End);
      names := map[];
    }

    /** names_vendor, names_product and the thirteen others. */
    method Lookup(k: Key) returns (name: Option<string>)
      requires Valid()
      ensures name == Get(names, k)
    {
      var h := HashNum(BitsOf(Packed(k)));
      var p := heads[TableOf(k), h];
      while p.Node?
        invariant p.Find(k) == Get(names, k)
        decreases p
      {
        if p.key == k {
          return Some(p.name);
        }
        p := p.next;
      }
      name := None;
    }

    /** new_vendor, new_product and the thirteen others. */
    method Insert(name: string, k: Key) returns (rc: int)
      requires Valid()
      modifies this`names, heads
      ensures Valid()
      ensures k in old(names) ==> rc == -1 && names == old(names)
                                  && forall t, b :: 0 <= t < TABLES && 0 <= b < HASHSZ ==> heads[t, b] == old(heads[t, b])
      ensures k !in old(names) ==> rc == 0 && names == old(names)[k := name]
    {
      var h := HashNum(BitsOf(Packed(k)));
      var t := TableOf(k);
      var p := heads[t, h];
      while p.Node?
        invariant p.Find(k) == Get(names, k)
        decreases p
      {
        if p.key == k {
          return -1;
        }
        p := p.next;
      }
      heads[t, h] := Node(k, name, heads[t, h]);
      names := names[k := name];
      rc := 0;
    }
  }

  lemma SideBySide(a: nat, b: nat, m: nat, high: nat)
    requires b < m && a < high
    ensures (a * m + b) / m == a && (a * m + b) % m == b && a * m + b < high * m
  {
    var n := a * m + b;
    assert n == m * a + b;
    DivisionIs(n, m, a, b);
    LargerQuotient(m, a, high - a, b, 0);
    assert m * (a + (high - a)) == high * m;
  }

  /** The ids of a key stand side by side in the number that is hashed, which fits 32 bits. */
  lemma IdsArePacked(k: Key)
    ensures Packed(k) < 0x1_0000_0000
    ensures match k
            case Product(v, p) => Packed(k) / 0x1_0000 == v && Packed(k) % 0x1_0000 == p
            case Subclass(c, s) => Packed(k) / 0x100 == c && Packed(k) % 0x100 == s
            case Protocol(c, s, p) => Packed(k) / 0x100 / 0x100 == c && Packed(k) / 0x100 % 0x100 == s && Packed(k) % 0x100 == p
            case Vendor(v) => Packed(k) == v
            case Class(c) => Packed(k) == c
            case AudioTerminal(t) => Packed(k) == t
            case VideoTerminal(t) => Packed(k) == t
            case Hid(d) => Packed(k) == d
            case Report(t) => Packed(k) == t
            case Hut(p) => Packed(k) == p
            case Bias(b) => Packed(k) == b
            case Physdes(p) => Packed(k) == p
            case HutUsage(u) => Packed(k) == u
            case Langid(l) => Packed(k) == l
            case CountryCode(c) => Packed(k) == c
  {
    match k
    case Product(v, p) => SideBySide(v, p, 0x1_0000, 0x1_0000);
    case Subclass(c, s) => SideBySide(c, s, 0x100, 0x100);
    case Protocol(c, s, p) =>
      SideBySide(c, s, 0x100, 0x100);
      SideBySide(c * 0x100 + s, p, 0x100, 0x1_0000);
    case _ =>
  }
}
