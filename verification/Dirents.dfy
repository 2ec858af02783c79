/** Directory blobs: records of an inode number and a name, padded to four bytes. */
module Dirents {
  import opened Words

  const HDR: nat := 5   // FS_DIRENT_HDR

  /** A record is live if its inode number is not 0. */
  datatype Rec = Rec(ino: u32, name: seq<u8>)

  function Round4(n: nat): (r: nat)
    ensures n <= r < n + 4
  {
    if n == 0 then 0 else if n <= 4 then 4 else 4 + Round4(n - 4)
  }

  // (n + 3) & ~3
  lemma {:induction false} Round4IsMask(n: nat)
    ensures Round4(n) == (n + 3) / 4 * 4
  {
    if n > 4 { Round4IsMask(n - 4); }
  }

  function RecLen(nl: nat): (r: nat)
    ensures HDR + nl <= r < HDR + nl + 4
  {
    Round4(HDR + nl)
  }

  ghost predicate Fit(rs: seq<Rec>)
  {
    forall i :: 0 <= i < |rs| ==> |rs[i].name| <= 255
  }

  function Enc(r: Rec): (b: seq<u8>)
    requires |r.name| <= 255
    ensures |b| == RecLen(|r.name|)
  {
    Store32(r.ino) + [|r.name|] + r.name + Zeros(RecLen(|r.name|) - HDR - |r.name|)
  }

  /** The bytes of a list of records. */
  function Blob(rs: seq<Rec>): seq<u8>
    requires Fit(rs)
  {
    if |rs| == 0 then [] else Enc(rs[0]) + Blob(rs[1..])
  }

  /** dirent_next at the start of b: a record begins here and is complete. */
  predicate HasRec(b: seq<u8>)
  {
    HDR <= |b| && RecLen(b[4]) <= |b|
  }

  function FirstRec(b: seq<u8>): (r: Rec)
    requires HasRec(b)
    ensures |r.name| == b[4]
  {
    assert Pow256(4) == 0x1_0000_0000;
    LEBound(b[..4]);
    Rec(LE(b[..4]), b[HDR..HDR + b[4]])
  }

  /** The records of any bytes, up to the first that is not complete. */
  function Parse(b: seq<u8>): (rs: seq<Rec>)
    ensures Fit(rs)
    decreases |b|
  {
    if !HasRec(b) then [] else [FirstRec(b)] + Parse(b[RecLen(b[4])..])
  }

  lemma EncFirst(r: Rec, t: seq<u8>)
    requires |r.name| <= 255
    ensures var b := Enc(r) + t; HasRec(b) && FirstRec(b) == r && b[4] == |r.name| && b[RecLen(b[4])..] == t
  {
    var b := Enc(r) + t;
    assert b[4] == |r.name|;
    assert b[..4] == Store32(r.ino);
    assert b[HDR..HDR + |r.name|] == r.name;
  }

  lemma Assoc<T>(a: seq<T>, b: seq<T>, c: seq<T>)
    ensures (a + b) + c == a + (b + c)
  {
  }

  lemma HeadFirst<T>(s: seq<T>, t: seq<T>)
    requires |s| != 0
    ensures s + t == [s[0]] + (s[1..] + t)
  {
  }

  lemma ParseEnc(r: Rec, t: seq<u8>)
    requires |r.name| <= 255
    ensures Parse(Enc(r) + t) == [r] + Parse(t)
  {
    EncFirst(r, t);
  }

  /** Printing and parsing are inverse, and parsing goes on after the printed records. */
  lemma {:induction false} ParseBlob(rs: seq<Rec>, t: seq<u8>)
    requires Fit(rs)
    ensures Parse(Blob(rs) + t) == rs + Parse(t)
  {
    if |rs| == 0 {
      assert Blob(rs) + t == t;
    } else {
      var rest := Blob(rs[1..]) + t;
      Assoc(Enc(rs[0]), Blob(rs[1..]), t);
      ParseEnc(rs[0], rest);
      ParseBlob(rs[1..], t);
      HeadFirst(rs, Parse(t));
    }
  }

  lemma {:induction false} BlobAppend(rs: seq<Rec>, ts: seq<Rec>)
    requires Fit(rs) && Fit(ts)
    ensures Fit(rs + ts) && Blob(rs + ts) == Blob(rs) + Blob(ts)
  {
    if |rs| == 0 {
      assert rs + ts == ts;
    } else {
      BlobAppend(rs[1..], ts);
      assert (rs + ts)[1..] == rs[1..] + ts;
      Assoc(Enc(rs[0]), Blob(rs[1..]), Blob(ts));
    }
  }

  // ----- names -----

  predicate Hit(r: Rec, name: seq<u8>)
  {
    r.ino != 0 && r.name == name
  }

  /** The first live record with the name. */
  function Index(rs: seq<Rec>, name: seq<u8>): (i: nat)
    ensures i <= |rs| && (i < |rs| ==> Hit(rs[i], name)) && forall k :: 0 <= k < i ==> !Hit(rs[k], name)
  {
    if |rs| == 0 || Hit(rs[0], name) then 0 else 1 + Index(rs[1..], name)
  }

  /** The inode a name leads to, or -1. */
  function Lookup(rs: seq<Rec>, name: seq<u8>): int
  {
    var i := Index(rs, name);
    if i < |rs| then rs[i].ino else -1
  }

  ghost predicate DistinctNames(rs: seq<Rec>)
  {
    forall i, j :: 0 <= i < j < |rs| && rs[i].ino != 0 && rs[j].ino != 0 ==> rs[i].name != rs[j].name
  }

  /** The directory as a finite map. */
  ghost function Entries(rs: seq<Rec>): map<seq<u8>, u32>
  {
    if |rs| == 0 then map[]
    else if rs[0].ino == 0 then Entries(rs[1..])
    else Entries(rs[1..])[rs[0].name := rs[0].ino]
  }

  lemma {:induction false} LookupIsEntry(rs: seq<Rec>, name: seq<u8>)
    ensures Lookup(rs, name) == if name in Entries(rs) then Entries(rs)[name] else -1
  {
    if |rs| != 0 { LookupIsEntry(rs[1..], name); }
  }

  lemma IndexAppend(rs: seq<Rec>, r: Rec, name: seq<u8>)
    requires Index(rs, name) < |rs|
    ensures Index(rs + [r], name) == Index(rs, name)
  {
    var i, j := Index(rs, name), Index(rs + [r], name);
    assert (rs + [r])[i] == rs[i];
    assert j < |rs| ==> (rs + [r])[j] == rs[j];
  }

  lemma {:induction false} EntriesAppend(rs: seq<Rec>, r: Rec)
    requires r.ino != 0 && Lookup(rs, r.name) == -1
    ensures Entries(rs + [r]) == Entries(rs)[r.name := r.ino]
    ensures DistinctNames(rs) ==> DistinctNames(rs + [r])
  {
    if |rs| == 0 {
      assert rs + [r] == [r] && [r][1..] == [];
    } else {
      assert (rs + [r])[1..] == rs[1..] + [r];
      assert Index(rs, r.name) == |rs|;
      EntriesAppend(rs[1..], r);
    }
    assert forall i :: 0 <= i < |rs| ==> !Hit(rs[i], r.name);
  }

  function Without(rs: seq<Rec>, i: nat): seq<Rec>
    requires i < |rs|
  {
    rs[..i] + rs[i + 1..]
  }

  lemma DistinctWithout(rs: seq<Rec>, i: nat)
    requires i < |rs| && DistinctNames(rs)
    ensures DistinctNames(Without(rs, i)) && DistinctNames(rs[1..])
  {
    var w := Without(rs, i);
    forall j | 0 <= j < |w|
      ensures w[j] == rs[if j < i then j else j + 1]
    {
    }
  }

  // One record in front of a map.
  ghost function Entered(e: map<seq<u8>, u32>, r: Rec): map<seq<u8>, u32>
  {
    if r.ino == 0 then e else e[r.name := r.ino]
  }

  lemma EntriesHead(r: Rec, rs: seq<Rec>)
    ensures Entries([r] + rs) == Entered(Entries(rs), r)
  {
    assert ([r] + rs)[1..] == rs;
  }

  lemma HeadOnly(rs: seq<Rec>)
    requires |rs| != 0 && rs[0].ino != 0 && DistinctNames(rs)
    ensures rs[0].name !in Entries(rs[1..])
  {
    forall k | 0 <= k < |rs| - 1
      ensures !Hit(rs[1..][k], rs[0].name)
    {
      assert rs[1..][k] == rs[k + 1];
    }
    LookupIsEntry(rs[1..], rs[0].name);
  }

  lemma EnteredWithout(e: map<seq<u8>, u32>, r: Rec, name: seq<u8>)
    ensures r.ino == 0 || r.name != name ==> Entered(e, r) - {name} == Entered(e - {name}, r)
    ensures r.ino != 0 && r.name == name && name !in e ==> Entered(e, r) - {name} == e
  {
  }

  lemma {:induction false} EntriesWithout(rs: seq<Rec>, i: nat)
    requires i < |rs| && rs[i].ino != 0 && DistinctNames(rs)
    ensures Entries(Without(rs, i)) == Entries(rs) - {rs[i].name} && DistinctNames(Without(rs, i))
  {
    var r, q := rs[0], rs[1..];
    DistinctWithout(rs, i);
    assert rs == [r] + q;
    EntriesHead(r, q);
    EnteredWithout(Entries(q), r, rs[i].name);
    if i == 0 {
      assert Without(rs, 0) == q;
      HeadOnly(rs);
    } else {
      assert Without(rs, i) == [r] + Without(q, i - 1);
      EntriesWithout(q, i - 1);
      EntriesHead(r, Without(q, i - 1));
    }
  }

  // ----- the loops -----

  /** Walking over a blob with records rs: i of them are behind offset off. */
  ghost predicate At(blob: seq<u8>, rs: seq<Rec>, off: nat, i: nat)
  {
    off <= |blob| && i <= |rs| && Fit(rs) && Parse(blob[off..]) == rs[i..] && off == |Blob(rs[..i])|
  }

  lemma AtStart(blob: seq<u8>)
    ensures At(blob, Parse(blob), 0, 0)
  {
    assert blob[0..] == blob;
  }

  lemma BlobLast(rs: seq<Rec>, i: nat)
    requires Fit(rs) && i < |rs|
    ensures |Blob(rs[..i + 1])| == |Blob(rs[..i])| + RecLen(|rs[i].name|)
  {
    assert rs[..i + 1] == rs[..i] + [rs[i]];
    BlobAppend(rs[..i], [rs[i]]);
    assert [rs[i]][1..] == [];
  }

  lemma ParseStep(b: seq<u8>, rs: seq<Rec>)
    requires HasRec(b) && Parse(b) == rs
    ensures 0 < |rs| && rs[0] == FirstRec(b) && Parse(b[RecLen(b[4])..]) == rs[1..]
  {
    assert rs == [FirstRec(b)] + Parse(b[RecLen(b[4])..]);
  }

  lemma AtNext(blob: seq<u8>, rs: seq<Rec>, off: nat, i: nat)
    requires At(blob, rs, off, i) && HasRec(blob[off..])
    ensures i < |rs| && FirstRec(blob[off..]) == rs[i] && At(blob, rs, off + RecLen(blob[off + 4]), i + 1)
  {
    var b := blob[off..];
    ParseStep(b, rs[i..]);
    BlobLast(rs, i);
    assert blob[off + RecLen(b[4])..] == b[RecLen(b[4])..];
    assert rs[i + 1..] == rs[i..][1..];
  }

  lemma AtEnd(blob: seq<u8>, rs: seq<Rec>, off: nat, i: nat)
    requires At(blob, rs, off, i) && (off == |blob| || i == |rs|)
    ensures i == |rs|
  {
  }

  /** dirent_next: the next record, if there is one. */
  method Next(blob: seq<u8>, off: nat, ghost rs: seq<Rec>, ghost i: nat) returns (has: bool, r: Rec, next: nat)
    requires At(blob, rs, off, i)
    ensures has == (i < |rs|)
    ensures has ==> r == rs[i] && off < next && At(blob, rs, next, i + 1) && HasRec(blob[off..])
  {
    has, r, next := HasRec(blob[off..]), Rec(0, []), off;
    if has {
      AtNext(blob, rs, off, i);
      r, next := FirstRec(blob[off..]), off + RecLen(blob[off + 4]);
    }
  }

  /** The walk of dir_find_name and dir_remove_entry: the inode the name leads to, and where its record is. */
  method FindIn(blob: seq<u8>, name: seq<u8>) returns (found: int, off: nat)
    ensures found == Lookup(Parse(blob), name)
    ensures found >= 0 ==> At(blob, Parse(blob), off, Index(Parse(blob), name)) && HasRec(blob[off..])
  {
    ghost var rs, i := Parse(blob), 0;
    off := 0;
    AtStart(blob);
    while off < |blob|
      invariant At(blob, rs, off, i) && forall k :: 0 <= k < i ==> !Hit(rs[k], name)
    {
      var has, r, next := Next(blob, off, rs, i);
      if !has { break; }
      if r.ino != 0 && r.name == name {
        assert Index(rs, name) == i;
        return r.ino, off;
      }
      off, i := next, i + 1;
    }
    AtEnd(blob, rs, off, i);
    return -1, off;
  }

  lemma BlobAround(rs: seq<Rec>, i: nat)
    requires Fit(rs) && i < |rs|
    ensures Blob(rs) == Blob(rs[..i]) + (Enc(rs[i]) + Blob(rs[i + 1..]))
  {
    assert rs == rs[..i] + rs[i..];
    BlobAppend(rs[..i], rs[i..]);
    assert rs[i..][1..] == rs[i + 1..];
  }

  lemma CutOut(b: seq<u8>, a: seq<u8>, e: seq<u8>, z: seq<u8>, off: nat, n: nat)
    requires b == a + (e + z) && off == |a| && n == |e|
    ensures off + n <= |b| && b[..off] + b[off + n..] == a + z
  {
    assert b[..off] == a && b[off + n..] == z;
  }

  // Cutting out the bytes of record i.
  lemma CutRecord(blob: seq<u8>, rs: seq<Rec>, off: nat, i: nat, n: nat)
    requires Fit(rs) && blob == Blob(rs) && i < |rs| && off == |Blob(rs[..i])| && n == |Enc(rs[i])|
    ensures off + n <= |blob| && Fit(Without(rs, i)) && blob[..off] + blob[off + n..] == Blob(Without(rs, i))
  {
    BlobAround(rs, i);
    BlobAppend(rs[..i], rs[i + 1..]);
    CutOut(blob, Blob(rs[..i]), Enc(rs[i]), Blob(rs[i + 1..]), off, n);
  }

  lemma RecordSpan(blob: seq<u8>, rs: seq<Rec>, off: nat, i: nat)
    requires At(blob, rs, off, i) && HasRec(blob[off..])
    ensures Fit(rs) && i < |rs| && off == |Blob(rs[..i])| && RecLen(blob[off + 4]) == |Enc(rs[i])|
  {
    AtNext(blob, rs, off, i);
  }

  /** The blob after dir_remove_entry moved the later records over the one that is removed. */
  method RemoveIn(blob: seq<u8>, name: seq<u8>) returns (ok: bool, left: seq<u8>)
    ensures ok == (Lookup(Parse(blob), name) >= 0)
    ensures ok && blob == Blob(Parse(blob)) ==>
                   var i := Index(Parse(blob), name);
                   i < |Parse(blob)| && Fit(Without(Parse(blob), i)) && left == Blob(Without(Parse(blob), i))
    ensures |left| <= |blob|
  {
    var found, off := FindIn(blob, name);
    if found < 0 { return false, []; }
    var n := RecLen(blob[off + 4]);
    RecordSpan(blob, Parse(blob), off, Index(Parse(blob), name));
    if blob == Blob(Parse(blob)) { CutRecord(blob, Parse(blob), off, Index(Parse(blob), name), n); }
    left := blob[..off] + blob[off + n..];
    ok := true;
  }

  ghost predicate AllDead(rs: seq<Rec>)
  {
    forall k :: 0 <= k < |rs| ==> rs[k].ino == 0
  }

  /** dir_is_empty */
  method NoneLive(blob: seq<u8>) returns (empty: bool)
    ensures empty == AllDead(Parse(blob))
  {
    ghost var rs, i := Parse(blob), 0;
    var off := 0;
    AtStart(blob);
    while off < |blob|
      invariant At(blob, rs, off, i) && forall k :: 0 <= k < i ==> rs[k].ino == 0
    {
      var has, r, next := Next(blob, off, rs, i);
      if !has { break; }
      if r.ino != 0 {
        assert !AllDead(rs);
        return false;
      }
      off, i := next, i + 1;
    }
    AtEnd(blob, rs, off, i);
    return true;
  }

  // ----- the 64 KiB limit -----

  const LIMIT: nat := 65536

  function Visible(b: seq<u8>): seq<u8>
  {
    if |b| > LIMIT then b[..LIMIT] else b
  }

  // Records that do not fit are not seen.
  lemma {:induction false} ParseCut(r: Rec, n: nat)
    requires |r.name| <= 255 && n < |Enc(r)|
    ensures Parse(Enc(r)[..n]) == []
  {
  }

  lemma ParseOne(rs: seq<Rec>, r: Rec)
    requires Fit(rs) && |r.name| <= 255
    ensures Parse(Blob(rs) + Enc(r)) == rs + [r] && Fit(rs + [r]) && Blob(rs + [r]) == Blob(rs) + Enc(r)
  {
    assert Blob([r]) == Enc(r) by { assert [r][1..] == []; }
    BlobAppend(rs, [r]);
    ParseBlob(rs + [r], []);
    assert Blob(rs + [r]) + [] == Blob(rs + [r]);
  }

  /** A name added to a directory of at most 64 KiB is found afterwards exactly if the directory
      still has at most 64 KiB. */
  lemma FoundIffFits(rs: seq<Rec>, r: Rec)
    requires Fit(rs) && |Blob(rs)| <= LIMIT && |r.name| <= 255 && r.ino != 0 && Lookup(rs, r.name) == -1
    ensures Lookup(Parse(Visible(Blob(rs) + Enc(r))), r.name) == r.ino <==> |Blob(rs)| + |Enc(r)| <= LIMIT
  {
    var b := Blob(rs) + Enc(r);
    if |b| > LIMIT {
      var n := LIMIT - |Blob(rs)|;
      assert Visible(b) == Blob(rs) + Enc(r)[..n];
      ParseBlob(rs, Enc(r)[..n]);
      ParseCut(r, n);
      assert rs + [] == rs;
    } else {
      ParseOne(rs, r);
      EntriesAppend(rs, r);
      LookupIsEntry(rs + [r], r.name);
    }
  }

  lemma {:induction false} ManyRecords(n: nat)
    ensures var rs := seq(n, _ => Rec(1, [97])); Fit(rs) && |Blob(rs)| == 8 * n && Lookup(rs, [98]) == -1
  {
    if n != 0 {
      var rs := seq(n, _ => Rec(1, [97]));
      assert rs[1..] == seq(n - 1, _ => Rec(1, [97]));
      ManyRecords(n - 1);
      Round4IsMask(HDR + 1);
      assert |Enc(rs[0])| == 8;
    }
  }

  /** A record that follows 65536 bytes of others is not found. */
  lemma DirectoryFull()
    ensures var rs := seq(8192, _ => Rec(1, [97]));
            Fit(rs) && Lookup(rs, [98]) == -1 && Lookup(Parse(Visible(Blob(rs) + Enc(Rec(2, [98])))), [98]) != 2
  {
    ManyRecords(8192);
    FoundIffFits(seq(8192, _ => Rec(1, [97])), Rec(2, [98]));
  }
}
