/** Shared vocabulary of the SFTP actions: bytes, paths, optional values, the
    failures the actions raise, the string helpers the Java code takes from
    Guava and java.lang.String, and the sequential map update that both the
    HashMap-filling loops and the file-writing loops perform. */
module Common {

  newtype byte = x: int | 0 <= x < 256

  type Bytes = seq<byte>

  type Path = string

  /** A fingerprint of a file's content (an MD5 digest in the source). */
  type Digest = Bytes

  datatype Option<+T> = None | Some(value: T)

  /** What a Java exception thrown by an action stands for. */
  datatype ActionError =
    | RemoteFailure(path: Path)    // SftpException from ls, get, rm or cd
    | StoreFailure(path: Path)     // IOException from the destination or local filesystem
    | ConnectFailure               // JSch could not authenticate or connect
    | MissingPrivateKey            // NullPointerException from getPrivateKey()
    | SourceMissing(path: Path)    // the put action's RuntimeException
    | MissingSetting(name: string) // NullPointerException from an unset option

  datatype Result<+T> = Ok(value: T) | Err(error: ActionError)

  /** Guava's Strings.isNullOrEmpty. */
  predicate IsNullOrEmpty(s: Option<string>) {
    s.None? || s.value == ""
  }

  /** java.lang.String.endsWith. */
  predicate EndsWith(s: string, suffix: string) {
    |suffix| <= |s| && s[|s| - |suffix|..] == suffix
  }

  /** `dir + "/" + name`, the path concatenation the actions use. */
  function Child(dir: Path, name: string): Path {
    dir + "/" + name
  }

  /** Different names give different children of one directory. */
  lemma ChildInjective(dir: Path, x: string, y: string)
    requires Child(dir, x) == Child(dir, y)
    ensures x == y
  {
    var n := |dir| + 1;
    assert Child(dir, x)[n..] == x;
    assert Child(dir, y)[n..] == y;
  }

  function Elems<T>(xs: seq<T>): set<T> {
    set x | x in xs
  }

  // ---------------------------------------------------------------------
  // Joiner.on(sep).join and String.split(sep)

  /** Guava's Joiner.on(sep).join(xs). */
  function Join(xs: seq<string>, sep: char): string {
    if |xs| == 0 then ""
    else if |xs| == 1 then xs[0]
    else xs[0] + [sep] + Join(xs[1..], sep)
  }

  /** Every piece between two separators, empty pieces included. */
  function SplitOn(s: string, sep: char): (pieces: seq<string>)
    ensures |pieces| >= 1
  {
    if s == [] then [""]
    else
      var rest := SplitOn(s[1..], sep);
      if s[0] == sep then [""] + rest else [[s[0]] + rest[0]] + rest[1..]
  }

  function DropTrailingEmpty(xs: seq<string>): (r: seq<string>)
    ensures |r| <= |xs| && r == xs[..|r|]
    ensures r != [] ==> r[|r| - 1] != ""
    ensures forall i :: |r| <= i < |xs| ==> xs[i] == ""
  {
    if xs != [] && xs[|xs| - 1] == "" then DropTrailingEmpty(xs[..|xs| - 1]) else xs
  }

  /** java.lang.String.split with a one-character separator and limit 0:
      the whole string when the separator does not occur, otherwise the
      pieces with the trailing empty ones removed. */
  function JavaSplit(s: string, sep: char): seq<string> {
    if sep !in s then [s] else DropTrailingEmpty(SplitOn(s, sep))
  }

  /** Joining the pieces restores the string. */
  lemma {:induction false} JoinSplitOn(s: string, sep: char)
    ensures Join(SplitOn(s, sep), sep) == s
  {
    if s != [] {
      var rest := SplitOn(s[1..], sep);
      JoinSplitOn(s[1..], sep);
      if s[0] == sep {
        assert ([""] + rest)[1..] == rest;
      } else if |rest| > 1 {
        var head := [s[0]] + rest[0];
        assert ([head] + rest[1..])[1..] == rest[1..];
        assert Join(rest, sep) == rest[0] + [sep] + Join(rest[1..], sep);
        assert s == [s[0]] + s[1..];
      } else {
        assert s == [s[0]] + s[1..];
      }
    }
  }

  lemma {:induction false} SplitOnWithout(s: string, sep: char)
    requires sep !in s
    ensures SplitOn(s, sep) == [s]
  {
    if s != [] {
      SplitOnWithout(s[1..], sep);
      assert [s[0]] + s[1..] == s;
    }
  }

  lemma {:induction false} SplitOnAfterPiece(x: string, sep: char, t: string)
    requires sep !in x
    ensures SplitOn(x + [sep] + t, sep) == [x] + SplitOn(t, sep)
  {
    if x == [] {
      assert x + [sep] + t == [sep] + t;
      assert ([sep] + t)[1..] == t;
    } else {
      var s := x + [sep] + t;
      assert s[0] == x[0];
      assert s[1..] == x[1..] + [sep] + t;
      SplitOnAfterPiece(x[1..], sep, t);
      assert [x[0]] + x[1..] == x;
    }
  }

  /** Splitting what was joined restores the pieces, as long as no piece
      contains the separator. */
  lemma {:induction false} SplitOnJoin(xs: seq<string>, sep: char)
    requires |xs| >= 1
    requires forall i :: 0 <= i < |xs| ==> sep !in xs[i]
    ensures SplitOn(Join(xs, sep), sep) == xs
  {
    if |xs| == 1 {
      SplitOnWithout(xs[0], sep);
    } else {
      SplitOnJoin(xs[1..], sep);
      SplitOnAfterPiece(xs[0], sep, Join(xs[1..], sep));
      assert [xs[0]] + xs[1..] == xs;
    }
  }

  /** The comma-joined list one action publishes is split back into the same
      paths by String.split, provided no path contains the separator and the
      last one is not empty. */
  lemma JavaSplitJoin(xs: seq<string>, sep: char)
    requires |xs| >= 1 && xs[|xs| - 1] != ""
    requires forall i :: 0 <= i < |xs| ==> sep !in xs[i]
    ensures JavaSplit(Join(xs, sep), sep) == xs
  {
    if |xs| == 1 {
    } else {
      assert Join(xs, sep)[|xs[0]|] == sep;
      SplitOnJoin(xs, sep);
    }
  }

  // ---------------------------------------------------------------------
  // Sequential map updates

  /** The map obtained by putting each pair of `puts`, in order, into `m`:
      what a loop of HashMap.put calls, or of file writes, leaves behind. */
  function Overlay<K, V>(m: map<K, V>, puts: seq<(K, V)>): map<K, V> {
    if puts == [] then m
    else Overlay(m, puts[..|puts| - 1])[puts[|puts| - 1].0 := puts[|puts| - 1].1]
  }

  function KeysOf<K, V>(puts: seq<(K, V)>): set<K> {
    set i | 0 <= i < |puts| :: puts[i].0
  }

  /** The keys afterwards are the old keys and the keys put. */
  lemma {:induction false} OverlayKeys<K, V>(m: map<K, V>, puts: seq<(K, V)>)
    ensures Overlay(m, puts).Keys == m.Keys + KeysOf(puts)
  {
    if puts != [] {
      var n := |puts| - 1;
      OverlayKeys(m, puts[..n]);
      assert KeysOf(puts) == KeysOf(puts[..n]) + {puts[n].0} by {
        forall k | k in KeysOf(puts) ensures k in KeysOf(puts[..n]) + {puts[n].0} {
          var i :| 0 <= i < |puts| && puts[i].0 == k;
          if i < n { assert puts[..n][i] == puts[i]; }
        }
        forall k | k in KeysOf(puts[..n]) ensures k in KeysOf(puts) {
          var i :| 0 <= i < n && puts[..n][i].0 == k;
          assert puts[i] == puts[..n][i];
        }
      }
    }
  }

  /** The last put of a key decides its value: a later put overwrites an
      earlier one. */
  lemma {:induction false} OverlayLastWins<K, V>(m: map<K, V>, puts: seq<(K, V)>, i: nat)
    requires i < |puts|
    requires forall j :: i < j < |puts| ==> puts[j].0 != puts[i].0
    ensures puts[i].0 in Overlay(m, puts) && Overlay(m, puts)[puts[i].0] == puts[i].1
  {
    var n := |puts| - 1;
    if i < n {
      forall j | i < j < n ensures puts[..n][j].0 != puts[..n][i].0 {
        assert puts[..n][j] == puts[j];
      }
      assert puts[..n][i] == puts[i];
      OverlayLastWins(m, puts[..n], i);
    }
  }

  /** A key that is never put keeps its old presence and value. */
  lemma {:induction false} OverlayUntouched<K, V>(m: map<K, V>, puts: seq<(K, V)>, k: K)
    requires forall j :: 0 <= j < |puts| ==> puts[j].0 != k
    ensures k in Overlay(m, puts) <==> k in m
    ensures k in m ==> Overlay(m, puts)[k] == m[k]
  {
    if puts != [] {
      var n := |puts| - 1;
      forall j | 0 <= j < n ensures puts[..n][j].0 != k {
        assert puts[..n][j] == puts[j];
      }
      OverlayUntouched(m, puts[..n], k);
    }
  }

  lemma OverlayAppend<K, V>(m: map<K, V>, puts: seq<(K, V)>, k: K, v: V)
    ensures Overlay(m, puts + [(k, v)]) == Overlay(m, puts)[k := v]
  {
    assert (puts + [(k, v)])[..|puts|] == puts;
  }

  lemma {:induction false} OverlayConcat<K, V>(m: map<K, V>, xs: seq<(K, V)>, ys: seq<(K, V)>)
    ensures Overlay(m, xs + ys) == Overlay(Overlay(m, xs), ys)
  {
    if ys == [] {
      assert xs + ys == xs;
    } else {
      var n := |ys| - 1;
      OverlayConcat(m, xs, ys[..n]);
      assert (xs + ys)[..|xs + ys| - 1] == xs + ys[..n];
    }
  }
}
