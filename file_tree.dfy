/**
 * A file system as a map from paths to file contents, and what copying a file or a folder
 * writes into it (the subject of copyDir, build.js:11-28).
 *
 * A path is the list of its segments relative to the project folder. Folders are not stored:
 * a folder exists when some file lies below it.
 */
module FileTree {
  type Path = seq<string>
  type Files = map<Path, string>

  predicate IsPrefix(p: Path, q: Path)
  {
    |p| <= |q| && q[..|p|] == p
  }

  /** No stored file lies below another: a path is either a file or a folder, never both. */
  ghost predicate PrefixFree(keys: set<Path>)
  {
    forall p, q :: p in keys && q in keys && p != q ==> !IsPrefix(p, q)
  }

  /** `d` is a folder: some file lies strictly below it. */
  predicate IsDir(m: Files, d: Path)
  {
    exists p :: p in m && IsPrefix(d, p) && |p| > |d|
  }

  /** The names read by `readdirSync(d)`: the next segment of every file below `d`. */
  function Entries(m: Files, d: Path): (names: set<string>)
    ensures forall n :: n in names ==> IsDir(m, d + [n]) || d + [n] in m
  {
    var names := set p | p in m && IsPrefix(d, p) && |p| > |d| :: p[|d|];
    assert forall n :: n in names ==> IsDir(m, d + [n]) || d + [n] in m by {
      forall n | n in names ensures IsDir(m, d + [n]) || d + [n] in m {
        var p :| p in m && IsPrefix(d, p) && |p| > |d| && p[|d|] == n;
        assert p[..|d| + 1] == d + [n];
        if |p| > |d| + 1 {
          assert IsPrefix(d + [n], p);
        } else {
          assert p == d + [n];
        }
      }
    }
    names
  }

  /**
   * What copying `src` to `dest` writes: each file at or below `src`, at the same relative
   * path below `dest`. For a folder these are the files below it; for a file, the file.
   */
  ghost function CopyOf(m: Files, src: Path, dest: Path): Files
  {
    RebaseInjective(src, dest);
    map p | p in m && IsPrefix(src, p) :: dest + p[|src|..] := m[p]
  }

  lemma RebaseInjective(src: Path, dest: Path)
    ensures forall p: Path, q: Path :: IsPrefix(src, p) && IsPrefix(src, q) && dest + p[|src|..] == dest + q[|src|..] ==> p == q
  {
    forall p: Path, q: Path | IsPrefix(src, p) && IsPrefix(src, q) && dest + p[|src|..] == dest + q[|src|..]
      ensures p == q
    {
      assert p[|src|..] == (dest + p[|src|..])[|dest|..];
      assert q[|src|..] == (dest + q[|src|..])[|dest|..];
      assert p == p[..|src|] + p[|src|..];
      assert q == q[..|src|] + q[|src|..];
    }
  }

  // ---------------------------------------------------------------------------------------
  // Facts about copies

  lemma PrefixFreeSubset(a: set<Path>, b: set<Path>)
    requires a <= b && PrefixFree(b)
    ensures PrefixFree(a)
  {
  }

  lemma PrefixTrans(a: Path, b: Path, c: Path)
    requires IsPrefix(a, b) && IsPrefix(b, c)
    ensures IsPrefix(a, c)
  {
    assert c[..|a|] == c[..|b|][..|a|];
  }

  /** Every path a copy writes is `dest` followed by the path relative to `src`. */
  lemma CopyOfKey(m: Files, src: Path, dest: Path, q: Path)
    requires q in CopyOf(m, src, dest)
    ensures IsPrefix(dest, q) && src + q[|dest|..] in m
    ensures CopyOf(m, src, dest)[q] == m[src + q[|dest|..]]
  {
    var p :| p in m && IsPrefix(src, p) && q == dest + p[|src|..];
    RebaseInjective(src, dest);
    assert q[|dest|..] == p[|src|..];
    assert p == src + p[|src|..];
  }

  /** The copy holds `dest + r` exactly when the source holds `src + r`, with the same content. */
  lemma CopyOfAt(m: Files, src: Path, dest: Path, r: Path)
    ensures dest + r in CopyOf(m, src, dest) <==> src + r in m
    ensures src + r in m ==> CopyOf(m, src, dest)[dest + r] == m[src + r]
  {
    var q := dest + r;
    assert q[|dest|..] == r;
    if src + r in m {
      var p := src + r;
      assert IsPrefix(src, p) && p[|src|..] == r;
      assert q in CopyOf(m, src, dest);
      CopyOfKey(m, src, dest, q);
    }
    if q in CopyOf(m, src, dest) {
      CopyOfKey(m, src, dest, q);
    }
  }

  /** Files outside `dest` keep their content when a copy is merged into the tree. */
  lemma CopyLeavesOthers(m: Files, src: Path, dest: Path, q: Path)
    requires q in m && !IsPrefix(dest, q)
    ensures q in m + CopyOf(m, src, dest) && (m + CopyOf(m, src, dest))[q] == m[q]
  {
    if q in CopyOf(m, src, dest) {
      CopyOfKey(m, src, dest, q);
    }
  }

  /** `q` is where the copy of `src` to `dest` puts a file from below the entries `names` of `src`. */
  predicate CopiesBelow(m: Files, src: Path, dest: Path, names: set<string>, q: Path)
  {
    IsPrefix(dest, q) && |q| > |dest| && q[|dest|] in names && src + q[|dest|..] in m
  }

  /** At `q`, `after` is `before` with the files below the entries `names` of `src` copied below `dest`. */
  predicate CopiedAt(before: Files, after: Files, src: Path, dest: Path, names: set<string>, q: Path)
  {
    (q in after <==> q in before || CopiesBelow(before, src, dest, names, q))
      && (q in after ==> after[q] == if CopiesBelow(before, src, dest, names, q) then before[src + q[|dest|..]] else before[q])
  }

  ghost predicate CopiedBelow(before: Files, after: Files, src: Path, dest: Path, names: set<string>)
  {
    forall q :: CopiedAt(before, after, src, dest, names, q)
  }

  /** Once every entry of a folder is copied, the whole folder is. */
  lemma CopiedAllEntries(before: Files, after: Files, src: Path, dest: Path)
    requires src !in before
    requires CopiedBelow(before, after, src, dest, Entries(before, src))
    ensures after == before + CopyOf(before, src, dest)
  {
    forall q ensures (q in after <==> q in before + CopyOf(before, src, dest))
      && (q in after ==> after[q] == (before + CopyOf(before, src, dest))[q])
    {
      CopiedAllAt(before, after, src, dest, q);
    }
  }

  lemma CopiedAllAt(before: Files, after: Files, src: Path, dest: Path, q: Path)
    requires src !in before
    requires CopiedAt(before, after, src, dest, Entries(before, src), q)
    ensures q in after <==> q in before + CopyOf(before, src, dest)
    ensures q in after ==> after[q] == (before + CopyOf(before, src, dest))[q]
  {
    var c := CopyOf(before, src, dest);
    if IsPrefix(dest, q) {
      var r := q[|dest|..];
      assert q == dest + r;
      CopyOfAt(before, src, dest, r);
      if r == [] {
        assert src + r == src;
      } else if src + r in before {
        EntryOf(before, src, r);
      }
    } else if q in c {
      CopyOfKey(before, src, dest, q);
    }
  }

  lemma EntryOf(m: Files, d: Path, r: Path)
    requires d + r in m && r != []
    ensures r[0] in Entries(m, d)
  {
    var p := d + r;
    assert IsPrefix(d, p) && |p| > |d| && p[|d|] == r[0];
  }

  /** `a` and `b` hold the same files at or below `d`. */
  ghost predicate AgreeBelow(a: Files, b: Files, d: Path)
  {
    forall p :: IsPrefix(d, p) ==> (p in a <==> p in b) && (p in a ==> a[p] == b[p])
  }

  /** Neither path lies at or below the other. */
  predicate Apart(a: Path, b: Path)
  {
    !IsPrefix(a, b) && !IsPrefix(b, a)
  }

  /** Paths whose first segments differ lie apart. */
  lemma FirstSegmentsApart(a: Path, b: Path)
    requires a != [] && b != [] && a[0] != b[0]
    ensures Apart(a, b)
  {
  }

  /** Two prefixes of one path are comparable. */
  lemma PrefixesComparable(a: Path, b: Path, p: Path)
    requires IsPrefix(a, p)
    ensures IsPrefix(b, p) ==> IsPrefix(a, b) || IsPrefix(b, a)
  {
    if IsPrefix(b, p) {
      if |a| <= |b| {
        assert b[..|a|] == p[..|b|][..|a|];
      } else {
        assert a[..|b|] == p[..|a|][..|b|];
      }
    }
  }

  lemma ApartBelow(src: Path, dest: Path, p: Path)
    requires Apart(src, dest) && IsPrefix(src, p)
    ensures !IsPrefix(dest, p)
  {
    PrefixesComparable(src, dest, p);
  }

  lemma PrefixOfExtended(a: Path, b: Path, name: string)
    ensures IsPrefix(a + [name], b + [name]) ==> IsPrefix(a, b)
  {
    if IsPrefix(a + [name], b + [name]) {
      assert b[..|a|] == (b + [name])[..|a + [name]|][..|a|];
    }
  }

  lemma ApartEntries(src: Path, dest: Path, name: string)
    requires Apart(src, dest)
    ensures Apart(src + [name], dest + [name])
  {
    PrefixOfExtended(src, dest, name);
    PrefixOfExtended(dest, src, name);
  }

  lemma AgreeIsDir(a: Files, b: Files, d: Path)
    requires AgreeBelow(a, b, d)
    ensures IsDir(a, d) <==> IsDir(b, d)
  {
  }

  lemma AgreeSub(a: Files, b: Files, d: Path, name: string)
    requires AgreeBelow(a, b, d)
    ensures AgreeBelow(a, b, d + [name])
  {
    forall p | IsPrefix(d + [name], p) ensures IsPrefix(d, p) {
      assert IsPrefix(d, d + [name]);
      PrefixTrans(d, d + [name], p);
    }
  }

  lemma AgreeCopy(a: Files, b: Files, src: Path, dest: Path)
    requires AgreeBelow(a, b, src)
    ensures CopyOf(a, src, dest) == CopyOf(b, src, dest)
  {
    forall q | q in CopyOf(a, src, dest) ensures q in CopyOf(b, src, dest) && CopyOf(a, src, dest)[q] == CopyOf(b, src, dest)[q] {
      CopyOfKey(a, src, dest, q);
      var r := q[|dest|..];
      assert q == dest + r;
      assert IsPrefix(src, src + r);
      CopyOfAt(b, src, dest, r);
    }
    forall q | q in CopyOf(b, src, dest) ensures q in CopyOf(a, src, dest) {
      CopyOfKey(b, src, dest, q);
      var r := q[|dest|..];
      assert q == dest + r;
      assert IsPrefix(src, src + r);
      CopyOfAt(a, src, dest, r);
    }
  }

  /** The copy of an entry of `src` is part of the copy of `src`. */
  lemma SubCopyWithin(m: Files, src: Path, dest: Path, name: string)
    ensures CopyOf(m, src + [name], dest + [name]).Keys <= CopyOf(m, src, dest).Keys
  {
    forall q | q in CopyOf(m, src + [name], dest + [name]) ensures q in CopyOf(m, src, dest) {
      CopyOfKey(m, src + [name], dest + [name], q);
      var x := q[|dest| + 1..];
      assert q == dest + [name] + x;
      assert q == dest + ([name] + x);
      assert src + [name] + x == src + ([name] + x);
      CopyOfAt(m, src, dest, [name] + x);
    }
  }

  lemma CopyOfNonEmpty(m: Files, src: Path, dest: Path)
    requires dest != []
    ensures [] !in CopyOf(m, src, dest)
  {
    if [] in CopyOf(m, src, dest) {
      CopyOfKey(m, src, dest, []);
    }
  }

  /** While copying, what lies below `src` is untouched and nothing outside the copy is new. */
  lemma CopiedFacts(m: Files, fs: Files, src: Path, dest: Path, done: set<string>)
    requires Apart(src, dest)
    requires CopiedBelow(m, fs, src, dest, done)
    ensures AgreeBelow(fs, m, src)
    ensures fs.Keys <= m.Keys + CopyOf(m, src, dest).Keys
  {
    forall p | IsPrefix(src, p) ensures (p in fs <==> p in m) && (p in fs ==> fs[p] == m[p]) {
      assert CopiedAt(m, fs, src, dest, done, p);
      ApartBelow(src, dest, p);
    }
    forall q | q in fs && q !in m ensures q in CopyOf(m, src, dest) {
      assert CopiedAt(m, fs, src, dest, done, q);
      var r := q[|dest|..];
      assert q == dest + r;
      CopyOfAt(m, src, dest, r);
    }
  }

  /** Copying one more plain file entry extends the copied part by that entry. */
  lemma FileStep(m: Files, fs: Files, src: Path, dest: Path, done: set<string>, name: string)
    requires PrefixFree(m.Keys) && name !in done && src + [name] in m
    requires CopiedBelow(m, fs, src, dest, done)
    ensures CopiedBelow(m, fs[dest + [name] := m[src + [name]]], src, dest, done + {name})
  {
    var after := fs[dest + [name] := m[src + [name]]];
    forall q ensures CopiedAt(m, after, src, dest, done + {name}, q) {
      assert CopiedAt(m, fs, src, dest, done, q);
      FileStepAt(m, fs, src, dest, done, name, q);
    }
  }

  lemma FileStepAt(m: Files, fs: Files, src: Path, dest: Path, done: set<string>, name: string, q: Path)
    requires PrefixFree(m.Keys) && name !in done && src + [name] in m
    requires CopiedAt(m, fs, src, dest, done, q)
    ensures CopiedAt(m, fs[dest + [name] := m[src + [name]]], src, dest, done + {name}, q)
  {
    var dp := dest + [name];
    if q == dp {
      assert q[|dest|..] == [name];
    } else if IsPrefix(dest, q) && |q| > |dest| && q[|dest|] == name {
      var x := q[|dest| + 1..];
      assert q == dest + [name] + x;
      assert q[|dest|..] == [name] + x;
      assert src + q[|dest|..] == src + [name] + x;
      if src + [name] + x in m {
        assert x != [];
        assert IsPrefix(src + [name], src + [name] + x);
      }
    }
  }

  /** Copying one more folder entry extends the copied part by that entry. */
  lemma DirStep(m: Files, fs: Files, src: Path, dest: Path, done: set<string>, name: string)
    requires Apart(src, dest) && name !in done
    requires CopiedBelow(m, fs, src, dest, done)
    ensures CopiedBelow(m, fs + CopyOf(fs, src + [name], dest + [name]), src, dest, done + {name})
  {
    CopiedFacts(m, fs, src, dest, done);
    AgreeSub(fs, m, src, name);
    AgreeCopy(fs, m, src + [name], dest + [name]);
    forall q ensures CopiedAt(m, fs + CopyOf(m, src + [name], dest + [name]), src, dest, done + {name}, q) {
      assert CopiedAt(m, fs, src, dest, done, q);
      DirStepAt(m, fs, src, dest, done, name, q);
    }
  }

  lemma DirStepAt(m: Files, fs: Files, src: Path, dest: Path, done: set<string>, name: string, q: Path)
    requires name !in done
    requires CopiedAt(m, fs, src, dest, done, q)
    ensures CopiedAt(m, fs + CopyOf(m, src + [name], dest + [name]), src, dest, done + {name}, q)
  {
    var dp := dest + [name];
    if IsPrefix(dp, q) {
      var x := q[|dp|..];
      assert q == dest + [name] + x;
      assert q[|dest|..] == [name] + x;
      assert src + q[|dest|..] == src + [name] + x;
      CopyOfAt(m, src + [name], dp, x);
    } else {
      if q in CopyOf(m, src + [name], dp) {
        CopyOfKey(m, src + [name], dp, q);
      }
    }
  }

  /** Before a folder entry is copied, the recursive copy's requirements hold. */
  lemma DirEntryReady(m: Files, fs: Files, src: Path, dest: Path, done: set<string>, name: string, depth: nat)
    requires Apart(src, dest) && CopiedBelow(m, fs, src, dest, done)
    requires forall p :: p in m && IsPrefix(src, p) ==> |p| <= |src| + depth
    requires PrefixFree(m.Keys + CopyOf(m, src, dest).Keys)
    requires IsDir(fs, src + [name])
    ensures Apart(src + [name], dest + [name]) && depth >= 1
    ensures forall p :: p in fs && IsPrefix(src + [name], p) ==> |p| <= |src + [name]| + depth - 1
    ensures PrefixFree(fs.Keys + CopyOf(fs, src + [name], dest + [name]).Keys)
  {
    var sp := src + [name];
    CopiedFacts(m, fs, src, dest, done);
    AgreeSub(fs, m, src, name);
    AgreeCopy(fs, m, sp, dest + [name]);
    SubCopyWithin(m, src, dest, name);
    ApartEntries(src, dest, name);
    assert IsPrefix(src, sp);
    forall p | p in fs && IsPrefix(sp, p) ensures p in m && IsPrefix(src, p) {
      PrefixTrans(src, sp, p);
    }
    var w :| w in fs && IsPrefix(sp, w) && |w| > |sp|;
    assert w in m && IsPrefix(src, w);
    PrefixFreeSubset(fs.Keys + CopyOf(fs, sp, dest + [name]).Keys, m.Keys + CopyOf(m, src, dest).Keys);
  }

  /** Before a plain file entry is copied, the file copy's requirements hold. */
  lemma FileEntryReady(m: Files, fs: Files, src: Path, dest: Path, done: set<string>, name: string)
    requires Apart(src, dest) && CopiedBelow(m, fs, src, dest, done)
    requires PrefixFree(m.Keys + CopyOf(m, src, dest).Keys)
    requires name in Entries(m, src) && !IsDir(fs, src + [name])
    ensures src + [name] in m && src + [name] in fs && fs[src + [name]] == m[src + [name]]
    ensures PrefixFree(fs.Keys + {dest + [name]})
  {
    CopiedFacts(m, fs, src, dest, done);
    AgreeSub(fs, m, src, name);
    AgreeIsDir(fs, m, src + [name]);
    assert IsPrefix(src + [name], src + [name]);
    CopyOfAt(m, src, dest, [name]);
    PrefixFreeSubset(fs.Keys + {dest + [name]}, m.Keys + CopyOf(m, src, dest).Keys);
  }
}
