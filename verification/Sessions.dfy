/**
  The chain of saves in one editing session. Heads are 32-byte digests, so distinct inputs may
  collide; what is proved is that a head fixes the whole history unless the two histories
  themselves exhibit a collision of the hash.
 */
module Sessions {
  import opened Bytes
  import opened Editing

  datatype Save = Save(number: u64, root: digest, totalLen: u64)

  /** The base of a session and the saves made from it, oldest first. */
  datatype History = History(fileId: id16, baseCounter: u64, baseRoot: digest, saves: seq<Save>)

  function SessionLabel(): bytes {
    Domain(EDIT_SESSION_LABEL)
  }

  /** What `session_start` hashes. */
  function StartPreimage(fileId: id16, baseCounter: u64, baseRoot: digest): bytes {
    SessionLabel() + (fileId + (Be64(baseCounter) + baseRoot))
  }

  /** What `session_step` hashes: the same label, told apart by the length alone. */
  function StepPreimage(prev: digest, save: Save): bytes {
    SessionLabel() + (prev + (Be64(save.number) + (save.root + Be64(save.totalLen))))
  }

  /** The last bytes hashed on the way to the head. */
  function LastPreimage(hash: bytes -> digest, h: History): bytes
    decreases |h.saves|, 0
  {
    if h.saves == [] then StartPreimage(h.fileId, h.baseCounter, h.baseRoot)
    else
      var n := |h.saves| - 1;
      StepPreimage(Head(hash, h.(saves := h.saves[..n])), h.saves[n])
  }

  function Head(hash: bytes -> digest, h: History): digest
    decreases |h.saves|, 1
  {
    hash(LastPreimage(hash, h))
  }

  /** `x` was hashed while building the chain of `h`. */
  ghost predicate Hashed(hash: bytes -> digest, h: History, x: bytes) {
    exists n :: 0 <= n <= |h.saves| && x == LastPreimage(hash, h.(saves := h.saves[..n]))
  }

  lemma {:induction false} StartInjective(f: id16, c: u64, r: digest, f': id16, c': u64, r': digest)
    requires StartPreimage(f, c, r) == StartPreimage(f', c', r')
    ensures f == f' && c == c' && r == r'
  {
    hide SessionLabel, Be64;
    SplitConcat(SessionLabel(), f + (Be64(c) + r), SessionLabel(), f' + (Be64(c') + r'));
    SplitConcat(f, Be64(c) + r, f', Be64(c') + r');
    SplitConcat(Be64(c), r, Be64(c'), r');
    Be64Injective(c, c');
  }

  lemma {:induction false} StepInjective(p: digest, s: Save, p': digest, s': Save)
    requires StepPreimage(p, s) == StepPreimage(p', s')
    ensures p == p' && s == s'
  {
    hide SessionLabel, Be64;
    var t, t' := s.root + Be64(s.totalLen), s'.root + Be64(s'.totalLen);
    SplitConcat(SessionLabel(), p + (Be64(s.number) + t), SessionLabel(), p' + (Be64(s'.number) + t'));
    SplitConcat(p, Be64(s.number) + t, p', Be64(s'.number) + t');
    SplitConcat(Be64(s.number), t, Be64(s'.number), t');
    SplitConcat(s.root, Be64(s.totalLen), s'.root, Be64(s'.totalLen));
    Be64Injective(s.number, s'.number);
    Be64Injective(s.totalLen, s'.totalLen);
  }

  /** A start is never a step: 16 + 8 + 32 bytes after the label against 32 + 8 + 32 + 8. */
  lemma {:induction false} StartIsNotStep(f: id16, c: u64, r: digest, p: digest, s: Save)
    ensures StartPreimage(f, c, r) != StepPreimage(p, s)
  {
    assert |StartPreimage(f, c, r)| == |SessionLabel()| + 56;
    assert |StepPreimage(p, s)| == |SessionLabel()| + 80;
  }

  lemma {:induction false} LastIsHashed(hash: bytes -> digest, h: History)
    ensures Hashed(hash, h, LastPreimage(hash, h))
  {
    assert h.saves[..|h.saves|] == h.saves;
    assert h.(saves := h.saves[..|h.saves|]) == h;
  }

  lemma {:induction false} HashedEarlier(hash: bytes -> digest, h: History, n: nat, x: bytes)
    requires n <= |h.saves| && Hashed(hash, h.(saves := h.saves[..n]), x)
    ensures Hashed(hash, h, x)
  {
    var g := h.(saves := h.saves[..n]);
    var k :| 0 <= k <= |g.saves| && x == LastPreimage(hash, g.(saves := g.saves[..k]));
    assert g.saves[..k] == h.saves[..k];
    assert g.(saves := g.saves[..k]) == h.(saves := h.saves[..k]);
  }

  /**
    A head fixes its whole history: two different histories, of any lengths, with one head
    contain two different inputs with one hash, and the proof says which.
   */
  lemma {:induction false} SameHeadOrCollision(hash: bytes -> digest, a: History, b: History) returns (x: bytes, y: bytes)
    requires a != b && Head(hash, a) == Head(hash, b)
    ensures x != y && hash(x) == hash(y)
    ensures Hashed(hash, a, x) && Hashed(hash, b, y)
    decreases |a.saves|
  {
    hide StartPreimage, StepPreimage, Hashed;
    x, y := LastPreimage(hash, a), LastPreimage(hash, b);
    LastIsHashed(hash, a);
    LastIsHashed(hash, b);
    if x == y {
      var m, n := |a.saves| - 1, |b.saves| - 1;
      if m < 0 && n < 0 {
        StartInjective(a.fileId, a.baseCounter, a.baseRoot, b.fileId, b.baseCounter, b.baseRoot);
      } else if m < 0 {
        StartIsNotStep(a.fileId, a.baseCounter, a.baseRoot, Head(hash, b.(saves := b.saves[..n])), b.saves[n]);
      } else if n < 0 {
        StartIsNotStep(b.fileId, b.baseCounter, b.baseRoot, Head(hash, a.(saves := a.saves[..m])), a.saves[m]);
      } else {
        var a', b' := a.(saves := a.saves[..m]), b.(saves := b.saves[..n]);
        StepInjective(Head(hash, a'), a.saves[m], Head(hash, b'), b.saves[n]);
        assert a.saves == a'.saves + [a.saves[m]] && b.saves == b'.saves + [b.saves[n]];
        x, y := SameHeadOrCollision(hash, a', b');
        HashedEarlier(hash, a, m, x);
        HashedEarlier(hash, b, n, y);
      }
    }
  }

  /** The chain `session_start` and `session_step` build, read forwards. */
  function SessionStart(hash: bytes -> digest, fileId: id16, baseCounter: u64, baseRoot: digest): digest {
    hash(StartPreimage(fileId, baseCounter, baseRoot))
  }

  function SessionStep(hash: bytes -> digest, prev: digest, save: Save): digest {
    hash(StepPreimage(prev, save))
  }

  lemma {:induction false} HeadIsBuiltBySteps(hash: bytes -> digest, h: History, save: Save)
    ensures h.saves == [] ==> Head(hash, h) == SessionStart(hash, h.fileId, h.baseCounter, h.baseRoot)
    ensures Head(hash, h.(saves := h.saves + [save])) == SessionStep(hash, Head(hash, h), save)
  {
    var next := h.(saves := h.saves + [save]);
    assert next.saves[..|h.saves|] == h.saves;
    assert next.(saves := next.saves[..|h.saves|]) == h;
  }
}
