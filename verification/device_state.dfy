/** What the script reads from the device before it plans anything
    (rsvp-auto-tunnel-mesh.py:31-34 and 51-61): the /32 routes of the routing
    table, the tunnels this mesh created earlier, and the grace marks left in
    their comments. The regular expressions become the predicates below. */
module DeviceState {
  import opened Results
  import opened Strings
  import opened Address

  // ---------------------------------------------------------------------
  // Routes (lines 31-34)
  // ---------------------------------------------------------------------

  /** The text of a route key before its first `/`: `route.split('/')[0]`. */
  function RouteOf(key: string): (q: string)
    ensures |q| <= |key| && q == key[..|q|]
    ensures '/' !in q
    ensures |q| == |key| || key[|q|] == '/'
  {
    SplitFirstPiece(key, '/');
    Split(key, '/')[0]
  }

  /** `re.match('[0-9]+\.[0-9]+\.[0-9]+\.[0-9]+/32', key)`: the key starts
      with a dotted quad and `/32`; `re.match` does not look past that. */
  predicate IsRoute32Key(key: string)
  {
    var q := RouteOf(key);
    IsDottedQuad(q) && StartsWith(key[|q|..], "/32")
  }

  /** A matching key is a dotted quad, `/32` and anything at all, and the
      quad is the route kept. */
  lemma Route32KeyShape(key: string)
    requires IsRoute32Key(key)
    ensures |RouteOf(key)| + 3 <= |key|
    ensures key == RouteOf(key) + "/32" + key[|RouteOf(key)| + 3..]
  {
    var q := RouteOf(key);
    StartsWithIff(key[|q|..], "/32");
    assert key == key[..|q|] + key[|q|..][..3] + key[|q| + 3..];
  }

  /** Every dotted quad followed by `/32` matches, and reads back as itself. */
  lemma Route32KeyReadBack(q: string, rest: string)
    requires IsDottedQuad(q)
    ensures IsRoute32Key(q + "/32" + rest) && RouteOf(q + "/32" + rest) == q
  {
    var key := q + "/32" + rest;
    assert RouteOf(key) == q by {
      DottedQuadChars(q);
      assert key == q + ['/'] + ("32" + rest);
      SplitAtFirst(q, '/', "32" + rest);
    }
    assert StartsWith(key[|q|..], "/32") by {
      assert key[|q|..] == "/32" + rest;
      StartsWithConcat("/32", rest);
    }
  }

  /** The routes the loop at lines 32-34 appends, in key order. */
  function Routes32(keys: seq<string>): (routes: seq<string>)
    ensures |routes| <= |keys|
  {
    if |keys| == 0 then []
    else
      var key := keys[|keys| - 1];
      Routes32(keys[..|keys| - 1]) + (if IsRoute32Key(key) then [RouteOf(key)] else [])
  }

  /** Every /32 key contributes its route. */
  lemma {:induction false} KeyRouteCollected(keys: seq<string>, i: int)
    requires 0 <= i < |keys| && IsRoute32Key(keys[i])
    ensures RouteOf(keys[i]) in Routes32(keys)
  {
    var n := |keys| - 1;
    if i < n {
      assert keys[..n][i] == keys[i];
      KeyRouteCollected(keys[..n], i);
    }
  }

  /** Every route collected comes from a /32 key, and is a dotted quad. */
  lemma {:induction false} CollectedRouteKey(keys: seq<string>, route: string) returns (i: int)
    requires route in Routes32(keys)
    ensures 0 <= i < |keys| && IsRoute32Key(keys[i]) && RouteOf(keys[i]) == route
    ensures IsDottedQuad(route)
  {
    var n := |keys| - 1;
    if route in Routes32(keys[..n]) {
      i := CollectedRouteKey(keys[..n], route);
      assert keys[..n][i] == keys[i];
    } else {
      i := n;
    }
  }

  /** A route is collected exactly when some /32 key carries it. */
  lemma Routes32Membership(keys: seq<string>, route: string)
    ensures route in Routes32(keys) <==>
            exists i :: 0 <= i < |keys| && IsRoute32Key(keys[i]) && RouteOf(keys[i]) == route
  {
    if route in Routes32(keys) {
      var i := CollectedRouteKey(keys, route);
    }
    if exists i :: 0 <= i < |keys| && IsRoute32Key(keys[i]) && RouteOf(keys[i]) == route {
      var i :| 0 <= i < |keys| && IsRoute32Key(keys[i]) && RouteOf(keys[i]) == route;
      KeyRouteCollected(keys, i);
    }
  }

  method CollectRoutes32(keys: seq<string>) returns (routes32: seq<string>)
    ensures routes32 == Routes32(keys)
  {
    routes32 := [];
    for k := 0 to |keys|
      invariant routes32 == Routes32(keys[..k])
    {
      assert keys[..k + 1][..k] == keys[..k];
      if IsRoute32Key(keys[k]) {
        routes32 := routes32 + [RouteOf(keys[k])];
      }
    }
    assert keys[..|keys|] == keys;
  }

  // ---------------------------------------------------------------------
  // Tunnels and their grace marks (lines 51-61)
  // ---------------------------------------------------------------------

  /** `<dotted quad>-<digits>`, the part of a mesh tunnel name after the prefix. */
  predicate IsQuadIndex(s: string)
  {
    var parts := Split(s, '-');
    |parts| == 2 && IsDottedQuad(parts[0]) && IsDigits(parts[1])
  }

  /** Python's `$` also matches just before a newline that ends the string. */
  function DropFinalNewline(s: string): (t: string)
    ensures |s| > 0 && s[|s| - 1] == '\n' ==> s == t + "\n"
    ensures !(|s| > 0 && s[|s| - 1] == '\n') ==> t == s
  {
    if |s| > 0 && s[|s| - 1] == '\n' then s[..|s| - 1] else s
  }

  /** The config keys of tunnels start with the word `tunnel` and a space. */
  predicate IsTunnelSection(key: string)
  {
    |key| >= 7 && key[..7] == "tunnel "
  }

  /** `re.match('^tunnel ' + prefix + '\-[0-9]+\.[0-9]+\.[0-9]+\.[0-9]+\-[0-9]+$', key)`,
      with the prefix taken literally: `tunnel `, the prefix, `-`, then a
      dotted quad, `-` and digits up to the end. */
  predicate IsTunnelKey(key: string, prefix: string)
  {
    IsTunnelSection(key) && IsMeshName(key[7..], prefix)
  }

  /** The part of a mesh tunnel key after `tunnel `. */
  predicate IsMeshName(name: string, prefix: string)
  {
    |prefix| + 1 <= |name| && StartsWith(name, prefix + "-") &&
    IsQuadIndex(DropFinalNewline(name[|prefix| + 1..]))
  }

  /** The characters with a meaning of their own in a regular expression.
      Line 55 pastes the prefix into its pattern unescaped, so a prefix
      without them is matched literally, which is what `IsTunnelKey` does. */
  predicate IsLiteralPattern(prefix: string)
  {
    forall i :: 0 <= i < |prefix| ==> prefix[i] !in ".^$*+?{}[]\\|()"
  }

  /** `tunnel <prefix>-<quad>-<digits>`, with or without one final newline. */
  function MeshKey(prefix: string, quad: string, digits: string, newline: bool): string
  {
    "tunnel " + prefix + "-" + quad + "-" + digits + (if newline then "\n" else "")
  }

  /** A key line 55 accepts is `tunnel `, the prefix, `-`, a dotted quad,
      `-`, digits, and at most one final newline. */
  lemma TunnelKeyShape(key: string, prefix: string) returns (quad: string, digits: string, newline: bool)
    requires IsTunnelKey(key, prefix)
    ensures IsDottedQuad(quad) && IsDigits(digits) && key == MeshKey(prefix, quad, digits, newline)
  {
    var name := key[7..];
    quad, digits, newline := MeshNameParts(name, prefix);
    assert key == "tunnel " + name by {
      assert key == key[..7] + name;
    }
  }

  lemma MeshNameParts(name: string, prefix: string) returns (quad: string, digits: string, newline: bool)
    requires IsMeshName(name, prefix)
    ensures IsDottedQuad(quad) && IsDigits(digits)
    ensures name == prefix + "-" + quad + "-" + digits + (if newline then "\n" else "")
  {
    var rest := name[|prefix| + 1..];
    var r := DropFinalNewline(rest);
    newline := r != rest;
    quad, digits := QuadIndexParts(r);
    assert name == prefix + "-" + rest by {
      StartsWithIff(name, prefix + "-");
      assert name == name[..|prefix| + 1] + rest;
    }
    MeshNameConcat(name, prefix, rest, quad, digits, if newline then "\n" else "");
  }

  lemma MeshNameConcat(name: string, prefix: string, rest: string, quad: string, digits: string, nl: string)
    requires name == prefix + "-" + rest && rest == quad + "-" + digits + nl
    ensures name == prefix + "-" + quad + "-" + digits + nl
  {
  }

  lemma QuadIndexParts(r: string) returns (quad: string, digits: string)
    requires IsQuadIndex(r)
    ensures IsDottedQuad(quad) && IsDigits(digits) && r == quad + "-" + digits
  {
    var parts := Split(r, '-');
    quad, digits := parts[0], parts[1];
    JoinSplit(r, '-');
    assert parts[1..] == [digits];
  }

  /** Every such key is accepted. */
  lemma TunnelKeyAccepted(prefix: string, quad: string, digits: string, newline: bool)
    requires IsDottedQuad(quad) && IsDigits(digits)
    ensures IsTunnelKey(MeshKey(prefix, quad, digits, newline), prefix)
  {
    var key := MeshKey(prefix, quad, digits, newline);
    var rest := quad + "-" + digits + (if newline then "\n" else "");
    var name := prefix + "-" + rest;
    assert key == "tunnel " + name;
    assert key[..7] == "tunnel " && key[7..] == name;
    QuadIndexAccepted(quad, digits, newline);
    MeshNameAccepted(prefix, rest);
  }

  /** The part after the prefix and its `-`, with or without the final newline. */
  lemma QuadIndexAccepted(quad: string, digits: string, newline: bool)
    requires IsDottedQuad(quad) && IsDigits(digits)
    ensures IsQuadIndex(DropFinalNewline(quad + "-" + digits + (if newline then "\n" else "")))
  {
    var r := quad + "-" + digits;
    assert DropFinalNewline(r + (if newline then "\n" else "")) == r by {
      assert IsDigit(digits[|digits| - 1]);
      assert r[|r| - 1] == digits[|digits| - 1];
    }
    assert Split(r, '-') == [quad, digits] by {
      DottedQuadChars(quad);
      assert '-' !in digits;
      assert r == quad + ['-'] + digits;
      SplitAtFirst(quad, '-', digits);
      SplitWithoutSeparator(digits, '-');
    }
  }

  lemma MeshNameAccepted(prefix: string, rest: string)
    requires IsQuadIndex(DropFinalNewline(rest))
    ensures IsMeshName(prefix + "-" + rest, prefix)
  {
    StartsWithConcat(prefix + "-", rest);
    assert (prefix + "-" + rest)[|prefix| + 1..] == rest;
  }

  /** The keys line 55 accepts are exactly those of the shape above. */
  lemma TunnelKeyIff(key: string, prefix: string)
    ensures IsTunnelKey(key, prefix) <==>
            exists quad, digits, newline :: IsDottedQuad(quad) && IsDigits(digits) && key == MeshKey(prefix, quad, digits, newline)
  {
    if IsTunnelKey(key, prefix) {
      var quad, digits, newline := TunnelKeyShape(key, prefix);
    }
    forall quad, digits, newline | IsDottedQuad(quad) && IsDigits(digits) && key == MeshKey(prefix, quad, digits, newline)
      ensures IsTunnelKey(key, prefix)
    {
      TunnelKeyAccepted(prefix, quad, digits, newline);
    }
  }

  /** `key.split(' ')[1]`: the tunnel name of a key that starts `tunnel `. */
  function TunnelNameOf(key: string): (name: string)
    requires IsTunnelSection(key)
    ensures ' ' !in name
  {
    assert key == "tunnel" + [' '] + key[7..];
    SplitAtFirst("tunnel", ' ', key[7..]);
    Split(key, ' ')[1]
  }

  /** The tunnel name of a key that is the word `tunnel`, a space and a name
      without spaces is that name. */
  lemma TunnelNameReadBack(name: string)
    requires ' ' !in name
    ensures TunnelNameOf("tunnel " + name) == name
  {
    var key := "tunnel " + name;
    assert key == "tunnel" + [' '] + name;
    SplitAtFirst("tunnel", ' ', name);
    SplitWithoutSeparator(name, ' ');
  }

  /** `re.match('^timeout: [0-9]+', comment)` */
  predicate IsTimeoutComment(c: string)
  {
    |c| >= 10 && c[..9] == "timeout: " && IsDigit(c[9])
  }

  /** `comment.split(' ')[1]`: the text after `timeout: ` up to the next space. */
  function MarkField(c: string): (f: string)
    requires IsTimeoutComment(c)
    ensures |f| > 0 && IsDigit(f[0])
    ensures 9 + |f| <= |c| && f == c[9..9 + |f|]
    ensures ' ' !in f && (9 + |f| == |c| || c[9 + |f|] == ' ')
  {
    assert c == "timeout:" + [' '] + c[9..];
    SplitAtFirst("timeout:", ' ', c[9..]);
    SplitFirstPiece(c[9..], ' ');
    Split(c, ' ')[1]
  }

  /** `int(comment.split(' ')[1])`; `None` where `int` raises `ValueError`. */
  function MarkValue(c: string): Option<nat>
    requires IsTimeoutComment(c)
  {
    ParseLeadingDigitInt(MarkField(c))
  }

  /** What `int` raises on a timeout comment it cannot read. */
  const BadMark := "ValueError: invalid literal for int()"

  /** One comment of the loop at lines 58-61, given the mark so far. */
  function MarkStep(prev: Result<Option<nat>>, c: string): Result<Option<nat>>
  {
    match prev
    case Err(reason) => Err(reason)
    case Ok(mark) =>
      if !IsTimeoutComment(c) then Ok(mark)
      else if MarkValue(c).None? then Err(BadMark)
      else Ok(Some(MarkValue(c).value))
  }

  /** The mark the comment loop at lines 58-61 leaves for one tunnel: the
      value of its last `timeout:` comment, `None` without one, `Err` as soon
      as a `timeout:` comment does not hold a number. */
  function LastMark(comments: seq<string>): (r: Result<Option<nat>>)
    ensures r.Err? ==> r == Err(BadMark)
  {
    if |comments| == 0 then Ok(None)
    else MarkStep(LastMark(comments[..|comments| - 1]), comments[|comments| - 1])
  }

  lemma LastMarkPrefix(comments: seq<string>, j: int)
    requires 0 <= j < |comments|
    ensures LastMark(comments[..j + 1]) == MarkStep(LastMark(comments[..j]), comments[j])
  {
    assert comments[..j + 1][..j] == comments[..j];
  }

  /** A bad `timeout:` comment makes the comments unreadable. */
  lemma {:induction false} BadCommentErr(comments: seq<string>, i: int)
    requires 0 <= i < |comments| && IsTimeoutComment(comments[i]) && MarkValue(comments[i]).None?
    ensures LastMark(comments).Err?
  {
    var n := |comments| - 1;
    if i < n {
      assert comments[..n][i] == comments[i];
      BadCommentErr(comments[..n], i);
    }
  }

  /** Unreadable comments hold a bad `timeout:` comment. */
  lemma {:induction false} ErrBadComment(comments: seq<string>) returns (i: int)
    requires LastMark(comments).Err?
    ensures 0 <= i < |comments| && IsTimeoutComment(comments[i]) && MarkValue(comments[i]).None?
  {
    var n := |comments| - 1;
    if LastMark(comments[..n]).Err? {
      i := ErrBadComment(comments[..n]);
      assert comments[..n][i] == comments[i];
    } else {
      i := n;
    }
  }

  /** The comments of a tunnel fail to read exactly when one of its
      `timeout:` comments holds no number. */
  lemma LastMarkErr(comments: seq<string>)
    ensures LastMark(comments).Err? <==>
            exists i :: 0 <= i < |comments| && IsTimeoutComment(comments[i]) && MarkValue(comments[i]).None?
  {
    if LastMark(comments).Err? {
      var i := ErrBadComment(comments);
    }
    if exists i :: 0 <= i < |comments| && IsTimeoutComment(comments[i]) && MarkValue(comments[i]).None? {
      var i :| 0 <= i < |comments| && IsTimeoutComment(comments[i]) && MarkValue(comments[i]).None?;
      BadCommentErr(comments, i);
    }
  }

  /** A tunnel is unmarked exactly when it has no `timeout:` comment. */
  lemma {:induction false} LastMarkNone(comments: seq<string>)
    ensures LastMark(comments) == Ok(None) <==> forall i :: 0 <= i < |comments| ==> !IsTimeoutComment(comments[i])
  {
    if |comments| > 0 {
      var n := |comments| - 1;
      LastMarkNone(comments[..n]);
      if forall i :: 0 <= i < |comments| ==> !IsTimeoutComment(comments[i]) {
        forall i | 0 <= i < n ensures !IsTimeoutComment(comments[..n][i]) {
          assert comments[..n][i] == comments[i];
        }
      }
      if LastMark(comments) == Ok(None) {
        forall i | 0 <= i < |comments| ensures !IsTimeoutComment(comments[i]) {
          if i < n {
            assert comments[..n][i] == comments[i];
          }
        }
      }
    }
  }

  /** A mark is the number in the last `timeout:` comment. */
  lemma {:induction false} LastMarkSome(comments: seq<string>, i: int)
    requires 0 <= i < |comments| && IsTimeoutComment(comments[i])
    requires forall j :: i < j < |comments| ==> !IsTimeoutComment(comments[j])
    requires LastMark(comments).Ok?
    ensures LastMark(comments) == Ok(MarkValue(comments[i]))
  {
    var n := |comments| - 1;
    if i < n {
      forall j | i < j < n ensures !IsTimeoutComment(comments[..n][j]) {
        assert comments[..n][j] == comments[j];
      }
      assert comments[..n][i] == comments[i];
      LastMarkSome(comments[..n], i);
    }
  }

  /** The comment written at line 90, once the device keeps it as the
      comment `timeout: N`, reads back as the same `now`. */
  lemma MarkReadBack(comments: seq<string>, now: nat)
    requires LastMark(comments).Ok?
    ensures LastMark(comments + ["timeout: " + NatToString(now)]) == Ok(Some(now))
  {
    var c := "timeout: " + NatToString(now);
    var all := comments + [c];
    assert all[..|all| - 1] == comments;
    assert c[..9] == "timeout: " && c[9..] == NatToString(now);
    var f := MarkField(c);
    SplitWithoutSeparator(NatToString(now), ' ');
    assert c == "timeout:" + [' '] + NatToString(now);
    SplitAtFirst("timeout:", ' ', NatToString(now));
    assert f == NatToString(now);
    ParseNatToString(now);
  }

  /** One `(tunnel, options)` item of the running config: the key under
      `router traffic-engineering` / `rsvp` and its `comments`. */
  datatype TunnelConfig = TunnelConfig(key: string, comments: seq<string>)

  /** What the loop at lines 54-61 takes from one item: nothing, or a mesh
      tunnel's name and the outcome of reading its comments. */
  datatype Reading = Unrelated | Mesh(name: string, mark: Result<Option<nat>>)

  function Read(cfg: TunnelConfig, prefix: string): Reading
  {
    if IsTunnelKey(cfg.key, prefix) then Mesh(TunnelNameOf(cfg.key), LastMark(cfg.comments)) else Unrelated
  }

  function Readings(configs: seq<TunnelConfig>, prefix: string): seq<Reading>
  {
    seq(|configs|, i requires 0 <= i < |configs| => Read(configs[i], prefix))
  }

  /** What the reading of the `i`-th item holds. */
  lemma ReadingOf(configs: seq<TunnelConfig>, prefix: string, i: int)
    requires 0 <= i < |configs|
    ensures var r := Readings(configs, prefix)[i];
            (r.Mesh? <==> IsTunnelKey(configs[i].key, prefix)) &&
            (r.Mesh? ==> r.name == TunnelNameOf(configs[i].key) && r.mark == LastMark(configs[i].comments))
  {
  }

  /** `existing_tunnels` and `timeouts` after lines 51-61. */
  datatype TunnelState = TunnelState(existing: seq<string>, marks: map<string, nat>)

  /** One item of the loop at lines 54-61, given the state so far. */
  function Collect(prev: Result<TunnelState>, r: Reading): Result<TunnelState>
  {
    match prev
    case Err(reason) => Err(reason)
    case Ok(st) =>
      match r
      case Unrelated => Ok(st)
      case Mesh(name, mark) =>
        match mark
        case Err(reason) => Err(reason)
        case Ok(None) => Ok(TunnelState(st.existing + [name], st.marks))
        case Ok(Some(v)) => Ok(TunnelState(st.existing + [name], st.marks[name := v]))
  }

  /** The state after the loop has seen `rs` in order; `Err` once a read fails. */
  function CollectAll(rs: seq<Reading>): (r: Result<TunnelState>)
    ensures r.Ok? ==> forall x :: x in r.value.marks ==> x in r.value.existing
  {
    if |rs| == 0 then Ok(TunnelState([], map[]))
    else Collect(CollectAll(rs[..|rs| - 1]), rs[|rs| - 1])
  }

  /** The state after the loop at lines 54-61 has seen `configs` in order;
      `Err` when line 61 raises. */
  function TunnelStateOf(configs: seq<TunnelConfig>, prefix: string): Result<TunnelState>
  {
    CollectAll(Readings(configs, prefix))
  }

  lemma CollectAllPrefix(rs: seq<Reading>, k: int)
    requires 0 <= k < |rs|
    ensures CollectAll(rs[..k + 1]) == Collect(CollectAll(rs[..k]), rs[k])
  {
    assert rs[..k + 1][..k] == rs[..k];
  }

  /** Once a prefix of the items aborts the run, the whole run aborts. */
  lemma {:induction false} CollectAllErr(rs: seq<Reading>, k: int)
    requires 0 <= k <= |rs| && CollectAll(rs[..k]).Err?
    ensures CollectAll(rs) == CollectAll(rs[..k])
  {
    if k < |rs| {
      var n := |rs| - 1;
      assert rs[..n][..k] == rs[..k];
      CollectAllErr(rs[..n], k);
    } else {
      assert rs[..k] == rs;
    }
  }

  /** The run aborts exactly when a mesh tunnel's comments cannot be read. */
  lemma {:induction false} CollectAllErrIff(rs: seq<Reading>)
    ensures CollectAll(rs).Err? <==> exists i :: 0 <= i < |rs| && rs[i].Mesh? && rs[i].mark.Err?
  {
    if |rs| > 0 {
      var n := |rs| - 1;
      CollectAllErrIff(rs[..n]);
      if exists i :: 0 <= i < |rs| && rs[i].Mesh? && rs[i].mark.Err? {
        var i :| 0 <= i < |rs| && rs[i].Mesh? && rs[i].mark.Err?;
        if i < n {
          assert rs[..n][i] == rs[i];
        }
      }
      if CollectAll(rs[..n]).Err? {
        var i :| 0 <= i < n && rs[..n][i].Mesh? && rs[..n][i].mark.Err?;
        assert rs[i] == rs[..n][i];
      }
    }
  }

  /** Every mesh item contributes its name. */
  lemma {:induction false} MeshCollected(rs: seq<Reading>, i: int)
    requires CollectAll(rs).Ok?
    requires 0 <= i < |rs| && rs[i].Mesh?
    ensures rs[i].name in CollectAll(rs).value.existing
  {
    var n := |rs| - 1;
    if i < n {
      assert rs[..n][i] == rs[i];
      MeshCollected(rs[..n], i);
    }
  }

  /** Every collected name comes from a mesh item. */
  lemma {:induction false} CollectedMesh(rs: seq<Reading>, name: string) returns (i: int)
    requires CollectAll(rs).Ok?
    requires name in CollectAll(rs).value.existing
    ensures 0 <= i < |rs| && rs[i].Mesh? && rs[i].name == name
  {
    var n := |rs| - 1;
    if name in CollectAll(rs[..n]).value.existing {
      i := CollectedMesh(rs[..n], name);
      assert rs[..n][i] == rs[i];
    } else {
      i := n;
    }
  }

  /** A name's mark comes from the last mesh item of that name that has one;
      the later items of that name are unmarked. */
  lemma {:induction false} MarkedMesh(rs: seq<Reading>, name: string) returns (i: int)
    requires CollectAll(rs).Ok?
    requires name in CollectAll(rs).value.marks
    ensures 0 <= i < |rs| && rs[i].Mesh? && rs[i].name == name
    ensures rs[i].mark == Ok(Some(CollectAll(rs).value.marks[name]))
    ensures forall j :: i < j < |rs| && rs[j].Mesh? && rs[j].name == name ==> rs[j].mark == Ok(None)
  {
    var n := |rs| - 1;
    var r := rs[n];
    if r.Mesh? && r.name == name && r.mark.value.Some? {
      i := n;
    } else {
      i := MarkedMesh(rs[..n], name);
      assert rs[..n][i] == rs[i];
      forall j | i < j < |rs| && rs[j].Mesh? && rs[j].name == name
        ensures rs[j].mark == Ok(None)
      {
        if j < n {
          assert rs[..n][j] == rs[j];
        }
      }
    }
  }

  /** Only mesh tunnel keys contribute names: a name is collected exactly when
      a key of the form `tunnel <prefix>-<quad>-<n>` carries it. */
  lemma ExistingMembership(configs: seq<TunnelConfig>, prefix: string, name: string)
    requires TunnelStateOf(configs, prefix).Ok?
    ensures name in TunnelStateOf(configs, prefix).value.existing <==>
            exists i :: 0 <= i < |configs| && IsTunnelKey(configs[i].key, prefix) && TunnelNameOf(configs[i].key) == name
  {
    var rs := Readings(configs, prefix);
    if name in TunnelStateOf(configs, prefix).value.existing {
      var i := CollectedMesh(rs, name);
      ReadingOf(configs, prefix, i);
    }
    if exists i :: 0 <= i < |configs| && IsTunnelKey(configs[i].key, prefix) && TunnelNameOf(configs[i].key) == name {
      var i :| 0 <= i < |configs| && IsTunnelKey(configs[i].key, prefix) && TunnelNameOf(configs[i].key) == name;
      ReadingOf(configs, prefix, i);
      MeshCollected(rs, i);
    }
  }

  /** A name's mark is the mark of the last mesh key with that name whose
      comments hold one. */
  lemma MarkOrigin(configs: seq<TunnelConfig>, prefix: string, name: string) returns (i: int)
    requires TunnelStateOf(configs, prefix).Ok?
    requires name in TunnelStateOf(configs, prefix).value.marks
    ensures 0 <= i < |configs| && IsTunnelKey(configs[i].key, prefix) && TunnelNameOf(configs[i].key) == name
    ensures LastMark(configs[i].comments) == Ok(Some(TunnelStateOf(configs, prefix).value.marks[name]))
    ensures forall j :: i < j < |configs| && IsTunnelKey(configs[j].key, prefix) && TunnelNameOf(configs[j].key) == name ==>
                        LastMark(configs[j].comments) == Ok(None)
  {
    var rs := Readings(configs, prefix);
    i := MarkedMesh(rs, name);
    ReadingOf(configs, prefix, i);
    forall j | i < j < |configs| && IsTunnelKey(configs[j].key, prefix) && TunnelNameOf(configs[j].key) == name
      ensures LastMark(configs[j].comments) == Ok(None)
    {
      ReadingOf(configs, prefix, j);
    }
  }

  /** The run aborts exactly when a mesh tunnel has a `timeout:` comment
      that `int` cannot read. */
  lemma StateErr(configs: seq<TunnelConfig>, prefix: string)
    ensures TunnelStateOf(configs, prefix).Err? <==>
            exists i :: 0 <= i < |configs| && IsTunnelKey(configs[i].key, prefix) && LastMark(configs[i].comments).Err?
  {
    var rs := Readings(configs, prefix);
    CollectAllErrIff(rs);
    if TunnelStateOf(configs, prefix).Err? {
      var i :| 0 <= i < |rs| && rs[i].Mesh? && rs[i].mark.Err?;
      ReadingOf(configs, prefix, i);
    }
    if exists i :: 0 <= i < |configs| && IsTunnelKey(configs[i].key, prefix) && LastMark(configs[i].comments).Err? {
      var i :| 0 <= i < |configs| && IsTunnelKey(configs[i].key, prefix) && LastMark(configs[i].comments).Err?;
      ReadingOf(configs, prefix, i);
    }
  }

  /** Once a prefix of the comments fails to read, so do all of them. */
  lemma {:induction false} LastMarkPrefixErr(comments: seq<string>, j: int)
    requires 0 <= j <= |comments| && LastMark(comments[..j]).Err?
    ensures LastMark(comments).Err?
  {
    if j < |comments| {
      var n := |comments| - 1;
      assert comments[..n][..j] == comments[..j];
      LastMarkPrefixErr(comments[..n], j);
    } else {
      assert comments[..j] == comments;
    }
  }

  /** Writing a key again replaces what an earlier write put there. */
  lemma MapOverwrite(m: map<string, nat>, key: string, earlier: Option<nat>, v: nat)
    ensures (if earlier.Some? then m[key := earlier.value] else m)[key := v] == m[key := v]
  {
  }

  /** Lines 58-61 for one mesh tunnel: each `timeout:` comment overwrites
      the tunnel's entry in `timeouts`; an unreadable mark aborts the run. */
  method ReadMarks(tunnel: string, comments: seq<string>, timeouts: map<string, nat>)
    returns (r: Result<map<string, nat>>)
    ensures r.Err? <==> LastMark(comments).Err?
    ensures r.Ok? ==> r.value == if LastMark(comments).value.Some? then timeouts[tunnel := LastMark(comments).value.value] else timeouts
  {
    var marks: map<string, nat> := timeouts;
    ghost var mark: Option<nat> := None;
    for j := 0 to |comments|
      invariant LastMark(comments[..j]) == Ok(mark)
      invariant marks == if mark.Some? then timeouts[tunnel := mark.value] else timeouts
    {
      var comment := comments[j];
      LastMarkPrefix(comments, j);
      if IsTimeoutComment(comment) {
        var parsed := ParseLeadingDigitInt(MarkField(comment));
        if parsed.None? {
          LastMarkPrefixErr(comments, j + 1);
          return Err(BadMark);
        }
        MapOverwrite(timeouts, tunnel, mark, parsed.value);
        marks := marks[tunnel := parsed.value];
        mark := parsed;
      }
    }
    assert comments[..|comments|] == comments;
    return Ok(marks);
  }

  /** Lines 55-61 for one item of the config. */
  method ReadTunnel(cfg: TunnelConfig, prefix: string, existing: seq<string>, timeouts: map<string, nat>)
    returns (r: Result<TunnelState>)
    ensures r == Collect(Ok(TunnelState(existing, timeouts)), Read(cfg, prefix))
  {
    if !IsTunnelKey(cfg.key, prefix) {
      return Ok(TunnelState(existing, timeouts));
    }
    var tunnel := TunnelNameOf(cfg.key);
    var names := existing + [tunnel];
    var marks := ReadMarks(tunnel, cfg.comments, timeouts);
    if marks.Err? {
      return Err(BadMark);
    }
    return Ok(TunnelState(names, marks.value));
  }

  /** The loop at lines 51-61 over every item of the config. */
  method ReadTunnelState(configs: seq<TunnelConfig>, prefix: string) returns (r: Result<TunnelState>)
    ensures r == TunnelStateOf(configs, prefix)
  {
    ghost var rs := Readings(configs, prefix);
    var existing: seq<string> := [];
    var timeouts: map<string, nat> := map[];
    for k := 0 to |configs|
      invariant CollectAll(rs[..k]) == Ok(TunnelState(existing, timeouts))
    {
      CollectAllPrefix(rs, k);
      var next := ReadTunnel(configs[k], prefix, existing, timeouts);
      if next.Err? {
        CollectAllErr(rs, k + 1);
        return next;
      }
      existing, timeouts := next.value.existing, next.value.marks;
    }
    assert rs[..|configs|] == rs;
    return Ok(TunnelState(existing, timeouts));
  }
}
