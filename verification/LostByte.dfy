/** A two-byte write at an odd offset, on a volume with one small file. */
module LostByte {
  import opened Words
  import opened Geometry
  import opened Tree
  import opened Bpram
  import opened WriteSpec
  import opened Root
  import opened TreeWrite
  import opened Volume
  import opened OneFile

  const SMALL: Mem := map[1 := RootBlock(0, 2, 128, 0), 2 := RootBlock(0, 3, 4, 4), 3 := ZeroBlock()]

  ghost const PLACES: Labels := map[1 := Label(2, 0, 0), 2 := Label(0, 0, 0), 3 := Label(1, 0, 0)]

  lemma IsSingle()
    ensures Single(SMALL, 0, 3, 4)
  {
    hide RootBlock;
  }

  lemma FourZeros()
    ensures FileShows(SMALL, 2, 4, [0, 0, 0, 0])
  {
    IsSingle();
    assert Get(SMALL, 3) == ZeroBlock() && Zeros(4) == [0, 0, 0, 0];
    hide Single, Read, Get;
    forall x: nat {:trigger Read(SMALL, 3, 0, 0, x)} | x < Cap(0) && x < 4
      ensures Read(SMALL, 3, 0, 0, x) == 0
    {
      ZeroReads(SMALL, 3, 0, 0, x);
    }
    ShowsZeros(SMALL, 0, 3, 4);
  }

  lemma Start(s: Snap)
    requires s.mem == SMALL && s.freed == {} && s.pos == PLACES
    ensures VolProper(s, VOL) && VolShows(SMALL, VOL, Files([0, 0, 0, 0]))
  {
    assert Proper(SMALL, PLACES, {}, 1, 3, 0, 0, 4);
    assert 1 in s.pos && s.pos[1] == Label(2, 0, 0) && 2 in s.pos && s.pos[2] == Label(0, 0, 0);
    hide *;
    IsSingle();
    FourZeros();
    ShowsFile(SMALL, 0, 3, [0, 0, 0, 0]);
    IsProper(s, 0, 3, 4);
  }

  lemma Mount()
    ensures {1, 2, 3} == PLACES.Keys <= SMALL.Keys && 0 !in SMALL && forall b {:trigger b in SMALL} | b in SMALL :: b < 0x2000_0000_0000_0000
    ensures 0 in VOL.live && 0 in Files([0, 0, 0, 0]) && WriteOk(Files([0, 0, 0, 0]), 0, 1, [1, 1])
  {
    hide RootBlock;
  }

  lemma MadeInPlace()
    ensures VolOk(VOL) && 0 in VOL.live && 0 in Files([0, 0, 0, 0]) && Overwrites(SMALL, VOL, Files([0, 0, 0, 0]), 0, 1, 2) && WriteRoom(1, 2) == 1
  {
    hide RootBlock, Nbytes, HaHeight, RootHeight, RootAddr, Single, Get, InodeBlock, RootWordOf, OneStoreAt, WriteRoom;
    IsSingle();
    Facts(SMALL, 0, 3, 4);
    OneStore();
  }

  lemma OneStore()
    ensures OneStoreAt(1, 2) && WriteRoom(1, 2) == 1
  {
  }

  lemma Lost(s0: Snap, s1: Snap, got: seq<Byte>, r: int)
    requires VolOk(VOL) && 0 in VOL.live && 0 in Files([0, 0, 0, 0]) && Arrives(SMALL, VOL, Files([0, 0, 0, 0]), 0, 1, [1, 1], got, r)
    requires VolWritten(s0, s1, VOL, Files([0, 0, 0, 0]), 0, FlatWrite(Files([0, 0, 0, 0])[0].bytes, 1, got), r)
    ensures r == 0 && VolShows(s1.mem, VOL, WithBytes(Files([0, 0, 0, 0]), 0, [0, 1, 0, 0]))
  {
    MadeInPlace();
    hide Overwrites, WriteRoom, VolShows, VolProper, VolOk;
    var was: seq<Byte> := Files([0, 0, 0, 0])[0].bytes;
    assert was == [0, 0, 0, 0] && got == [1, 0];
    assert FlatWrite(was, 1, got) == [0, 1, 0, 0];
  }

  /** The second of two bytes written at offset 1 is lost: the request succeeds, and the file does not hold what was written. */
  method WriteLosesByte() returns (fs: Bpram, r: int)
    ensures fs.Valid() && r == 0 && 0 in Files([0, 0, 0, 0]) && VolShows(fs.mem, VOL, WithBytes(Files([0, 0, 0, 0]), 0, [0, 1, 0, 0]))
    ensures FlatWrite([0, 0, 0, 0], 1, [1, 1]) == [0, 1, 1, 0]
  {
    hide *;
    Mount();
    fs := new Bpram(SMALL, {1, 2, 3}, PLACES);
    Start(Now(fs));
    ghost var s0 := Now(fs);
    ghost var got;
    r, got := WriteFile(fs, VOL, 0, 1, [1, 1], Files([0, 0, 0, 0]));
    assert VolOk(VOL) by {
      MadeInPlace();
    }
    Lost(s0, Now(fs), got, r);
    Asked();
  }

  lemma Asked()
    ensures FlatWrite([0, 0, 0, 0], 1, [1, 1]) == [0, 1, 1, 0]
  {
  }
}
