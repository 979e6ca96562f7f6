/** String helpers of the HTTP layer, and the case-insensitive header map. */
module HttpUtil {
  import opened Bytes

  // ------------------------------------------------------------------ split

  /** The non-empty pieces between separators. */
  function Split(s: bytes, separator: byte): seq<bytes>
    decreases |s|
  {
    var k := IndexOf(s, separator);
    var first := if k == 0 then [] else [s[..k]];
    if k == |s| then first else first + Split(s[k + 1..], separator)
  }

  /** Splitting after a piece and its separator. */
  lemma SplitPiece(piece: bytes, separator: byte, rest: bytes)
    requires separator !in piece
    ensures Split(piece + ([separator] + rest), separator)
      == (if piece == [] then [] else [piece]) + Split(rest, separator)
    ensures Split(piece, separator) == if piece == [] then [] else [piece]
  {
    var s := piece + ([separator] + rest);
    assert s[..|piece|] == piece && s[|piece| + 1..] == rest;
    IndexOfUnique(s, separator, |piece|);
    assert piece[..|piece|] == piece;
    IndexOfUnique(piece, separator, |piece|);
  }

  function Join(parts: seq<bytes>, separator: byte): bytes {
    if parts == [] then []
    else if |parts| == 1 then parts[0]
    else parts[0] + ([separator] + Join(parts[1..], separator))
  }

  /** Splitting inverts joining. */
  lemma {:induction false} SplitJoin(parts: seq<bytes>, separator: byte)
    requires forall i :: 0 <= i < |parts| ==> parts[i] != [] && separator !in parts[i]
    ensures Split(Join(parts, separator), separator) == parts
  {
    if parts == [] {
    } else if |parts| == 1 {
      SplitPiece(parts[0], separator, []);
    } else {
      SplitPiece(parts[0], separator, Join(parts[1..], separator));
      SplitJoin(parts[1..], separator);
      assert [parts[0]] + parts[1..] == parts;
    }
  }

  lemma SplitAt(s: bytes, separator: byte, start: nat, i: nat)
    requires start <= i <= |s| && separator !in s[start..i] && (i < |s| ==> s[i] == separator)
    ensures Split(s[start..], separator)
      == (if start < i then [s[start..i]] else []) + (if i < |s| then Split(s[i + 1..], separator) else [])
  {
    hide Split;
    var rest := if i < |s| then s[i + 1..] else [];
    SplitPiece(s[start..i], separator, rest);
    if i < |s| {
      assert s[start..] == s[start..i] + ([separator] + rest);
    } else {
      assert s[start..] == s[start..i];
    }
  }

  method SplitString(s: bytes, separator: byte) returns (result: seq<bytes>)
    ensures result == Split(s, separator)
  {
    hide Split;
    result := [];
    var start: nat, i: nat := 0, 0;
    assert s[0..] == s;
    while i <= |s|
      invariant start <= i <= |s| + 1
      invariant i <= |s| ==> separator !in s[start..i] && Split(s, separator) == result + Split(s[start..], separator)
      invariant i == |s| + 1 ==> Split(s, separator) == result
    {
      if i == |s| || s[i] == separator {
        SplitAt(s, separator, start, i);
        if start < i {
          result := result + [s[start..i]];
        }
        start := i + 1;
      }
      i := i + 1;
    }
  }

  // ------------------------------------------------------- query parameters

  const AMPERSAND: byte := 38
  const EQUALS: byte := 61

  predicate IsDelimiter(c: byte) {
    c == AMPERSAND || c == EQUALS
  }

  function TokenLength(s: bytes): (k: nat)
    ensures k <= |s| && (forall i :: 0 <= i < k ==> !IsDelimiter(s[i])) && (k < |s| ==> IsDelimiter(s[k]))
  {
    if s == [] || IsDelimiter(s[0]) then 0 else 1 + TokenLength(s[1..])
  }

  /** The value, if it is not empty and has a key. */
  function Binding(key: bytes, value: bytes): seq<(bytes, bytes)> {
    if key != [] && value != [] then [(key, value)] else []
  }

  /** The pairs of a query string, in order; a key stays in force until the next one. */
  function Params(s: bytes, key: bytes): seq<(bytes, bytes)>
    decreases |s|
  {
    var k := TokenLength(s);
    if k == |s| then Binding(key, s)
    else if s[k] == AMPERSAND then Binding(key, s[..k]) + Params(s[k + 1..], key)
    else Params(s[k + 1..], if 0 < k then s[..k] else key)
  }

  lemma ParamsAt(s: bytes, key: bytes, start: nat, i: nat)
    requires start <= i <= |s| && (forall j :: start <= j < i ==> !IsDelimiter(s[j]))
    requires i < |s| ==> IsDelimiter(s[i])
    ensures Params(s[start..], key) ==
      if i == |s| then Binding(key, s[start..i])
      else if s[i] == AMPERSAND then Binding(key, s[start..i]) + Params(s[i + 1..], key)
      else Params(s[i + 1..], if start < i then s[start..i] else key)
  {
    var t := s[start..];
    assert TokenLength(t) == i - start;
    assert t[..i - start] == s[start..i];
    assert i < |s| ==> t[i - start + 1..] == s[i + 1..];
    assert i == |s| ==> t == s[start..i];
  }

  /** The multimap as its pairs in order of insertion. */
  method RetrieveParams(s: bytes) returns (result: seq<(bytes, bytes)>)
    ensures result == Params(s, [])
  {
    hide Params;
    result := [];
    var start: nat, i: nat := 0, 0;
    var key: bytes := [];
    assert s[0..] == s;
    while i <= |s|
      invariant start <= i <= |s| + 1
      invariant i <= |s| ==> forall j :: start <= j < i ==> !IsDelimiter(s[j])
      invariant i <= |s| ==> Params(s, []) == result + Params(s[start..], key)
      invariant i == |s| + 1 ==> Params(s, []) == result
    {
      if i == |s| || s[i] == AMPERSAND {
        ParamsAt(s, key, start, i);
        if start < i && key != [] {
          result := result + [(key, s[start..i])];
        }
        start := i + 1;
      } else if s[i] == EQUALS {
        ParamsAt(s, key, start, i);
        if start < i {
          key := s[start..i];
        }
        start := i + 1;
      }
      i := i + 1;
    }
  }

  function PrintParams(ps: seq<(bytes, bytes)>): bytes {
    if ps == [] then []
    else
      var rest := if |ps| == 1 then [] else [AMPERSAND] + PrintParams(ps[1..]);
      ps[0].0 + ([EQUALS] + (ps[0].1 + rest))
  }

  predicate IsToken(t: bytes) {
    t != [] && forall i :: 0 <= i < |t| ==> !IsDelimiter(t[i])
  }

  /** One field of a query: keys, each before an equals sign, then a value; any may be empty. */
  datatype Field = Field(keys: seq<bytes>, value: bytes) {
    predicate WellFormed() {
      NoDelimiter(value) && forall i :: 0 <= i < |keys| ==> NoDelimiter(keys[i])
    }
  }

  predicate NoDelimiter(t: bytes) {
    forall i :: 0 <= i < |t| ==> t[i] != '&' as int && t[i] != '=' as int
  }

  ghost predicate WellFormedFields(fs: seq<Field>) {
    forall i :: 0 <= i < |fs| ==> fs[i].WellFormed()
  }

  function PrintKeys(keys: seq<bytes>, rest: bytes): bytes {
    if keys == [] then rest else keys[0] + (['=' as int] + PrintKeys(keys[1..], rest))
  }

  /** Any query string: its fields with ampersands between them. */
  function PrintFields(fs: seq<Field>): bytes {
    if fs == [] then []
    else PrintKeys(fs[0].keys, fs[0].value + if |fs| == 1 then [] else ['&' as int] + PrintFields(fs[1..]))
  }

  /** The last of the keys that is not empty, or the one that was in force before them. */
  function KeyInForce(keys: seq<bytes>, key: bytes): bytes {
    if keys == [] then key else KeyInForce(keys[1..], if keys[0] == [] then key else keys[0])
  }

  /** Every value that is not empty, under the key in force; a key stays in force in the fields after its own. */
  function BoundBy(fs: seq<Field>, key: bytes): seq<(bytes, bytes)> {
    if fs == [] then []
    else
      var k := KeyInForce(fs[0].keys, key);
      (if k != [] && fs[0].value != [] then [(k, fs[0].value)] else []) + BoundBy(fs[1..], k)
  }

  /** The turn of the scan that reads a piece without delimiters. */
  lemma ParamsAfterPiece(t: bytes, rest: bytes, key: bytes)
    requires NoDelimiter(t) && (rest != [] ==> rest[0] == '&' as int || rest[0] == '=' as int)
    ensures Params(t + rest, key) ==
      if rest == [] then (if key != [] && t != [] then [(key, t)] else [])
      else if rest[0] == '&' as int then
        (if key != [] && t != [] then [(key, t)] else []) + Params(rest[1..], key)
      else Params(rest[1..], if t == [] then key else t)
  {
    hide Params;
    var s := t + rest;
    assert s[0..] == s && s[0..|t|] == t;
    assert rest != [] ==> s[|t|] == rest[0] && s[|t| + 1..] == rest[1..];
    ParamsAt(s, key, 0, |t|);
  }

  /** A printed query string is read back, repeated keys included, in order. */
  lemma {:induction false} ParamsRoundTrip(ps: seq<(bytes, bytes)>, key: bytes)
    requires forall i :: 0 <= i < |ps| ==> IsToken(ps[i].0) && IsToken(ps[i].1)
    ensures Params(PrintParams(ps), key) == ps
  {
    hide Params;
    if ps == [] {
      ParamsAfterPiece([], [], key);
      assert [] + PrintParams(ps) == [];
    } else {
      var (k, v) := ps[0];
      var rest := if |ps| == 1 then [] else ['&' as int] + PrintParams(ps[1..]);
      ParamsAfterPiece(k, ['=' as int] + (v + rest), key);
      assert (['=' as int] + (v + rest))[1..] == v + rest;
      ParamsAfterPiece(v, rest, k);
      if |ps| == 1 {
        assert ps == [(k, v)];
      } else {
        ParamsRoundTrip(ps[1..], k);
        assert rest[1..] == PrintParams(ps[1..]);
        assert [(k, v)] + ps[1..] == ps;
      }
    }
  }

  lemma FieldInFront(value: bytes, fs: seq<Field>, key: bytes)
    requires NoDelimiter(value) && fs != [] && WellFormedFields(fs)
    ensures
      var more := [Field([], value)] + fs;
      && WellFormedFields(more) && PrintFields(more) == value + (['&' as int] + PrintFields(fs))
      && BoundBy(more, key) == (if key != [] && value != [] then [(key, value)] else []) + BoundBy(fs, key)
  {
    hide Field.WellFormed;
    var more := [Field([], value)] + fs;
    assert more[1..] == fs && more[0].WellFormed() by { ValueAlone(value); }
    assert forall i :: 0 < i < |more| ==> more[i] == fs[i - 1];
  }

  lemma ValueAlone(value: bytes)
    requires NoDelimiter(value)
    ensures Field([], value).WellFormed()
    ensures PrintFields([Field([], value)]) == value
    ensures forall key :: BoundBy([Field([], value)], key) == if key != [] && value != [] then [(key, value)] else []
  {
    var only := [Field([], value)];
    assert only[1..] == [] && value + [] == value;
    forall key ensures BoundBy(only, key) == if key != [] && value != [] then [(key, value)] else [] {
      assert BoundBy(only[1..], key) == [];
    }
  }

  /** The same fields with one more key in front. */
  function KeyInFront(t: bytes, fs: seq<Field>): seq<Field>
    requires fs != []
  {
    [Field([t] + fs[0].keys, fs[0].value)] + fs[1..]
  }

  lemma KeyIsInFront(t: bytes, fs: seq<Field>, key: bytes)
    requires NoDelimiter(t) && fs != [] && WellFormedFields(fs)
    ensures WellFormedFields(KeyInFront(t, fs))
    ensures PrintFields(KeyInFront(t, fs)) == t + (['=' as int] + PrintFields(fs))
    ensures BoundBy(KeyInFront(t, fs), key) == BoundBy(fs, if t == [] then key else t)
  {
    var f, more := fs[0], KeyInFront(t, fs);
    assert ([t] + f.keys)[1..] == f.keys && more[1..] == fs[1..];
    assert f.WellFormed() && forall i :: 0 < i < |more| ==> more[i] == fs[i];
    hide BoundBy, PrintFields;
    assert more[0].WellFormed();
  }

  /** The bindings of any query, from its fields. */
  lemma {:induction false} ParamsOfFields(fs: seq<Field>, key: bytes)
    requires WellFormedFields(fs)
    ensures Params(PrintFields(fs), key) == BoundBy(fs, key)
    decreases |fs|, if fs == [] then 0 else |fs[0].keys|
  {
    hide Params, PrintFields, BoundBy;
    if fs == [] {
      NoFields(key);
    } else {
      var f, later := fs[0], fs[1..];
      assert f.WellFormed() && forall i :: 0 <= i < |later| ==> later[i] == fs[i + 1];
      if f.keys != [] {
        var shorter := [Field(f.keys[1..], f.value)] + later;
        assert shorter[1..] == later && forall i :: 0 < i < |fs| ==> shorter[i] == fs[i];
        assert [f.keys[0]] + f.keys[1..] == f.keys && fs == KeyInFront(f.keys[0], shorter);
        KeyIsInFront(f.keys[0], shorter, key);
        ParamsAfterPiece(f.keys[0], ['=' as int] + PrintFields(shorter), key);
        assert (['=' as int] + PrintFields(shorter))[1..] == PrintFields(shorter);
        ParamsOfFields(shorter, if f.keys[0] == [] then key else f.keys[0]);
      } else if later == [] {
        assert fs == [Field([], f.value)];
        ValueAlone(f.value);
        ParamsAfterPiece(f.value, [], key);
        assert f.value + [] == f.value;
      } else {
        assert fs == [Field([], f.value)] + later;
        FieldInFront(f.value, later, key);
        ParamsAfterPiece(f.value, ['&' as int] + PrintFields(later), key);
        assert (['&' as int] + PrintFields(later))[1..] == PrintFields(later);
        ParamsOfFields(later, key);
      }
    }
  }

  lemma NoFields(key: bytes)
    ensures Params(PrintFields([]), key) == BoundBy([], key) == []
  {
    ParamsAfterPiece([], [], key);
    assert [] + PrintFields([]) == PrintFields([]);
  }

  /** Every string is the print of some fields. */
  lemma {:induction false} EveryQueryHasFields(s: bytes) returns (fs: seq<Field>)
    ensures fs != [] && WellFormedFields(fs) && PrintFields(fs) == s
    decreases |s|
  {
    hide PrintFields, Field.WellFormed, BoundBy;
    var k := TokenLength(s);
    CutAt(s, k);
    if k == |s| {
      fs := [Field([], s)];
      ValueAlone(s);
    } else {
      var later := EveryQueryHasFields(s[k + 1..]);
      if s[k] == '&' as int {
        FieldInFront(s[..k], later, []);
        fs := [Field([], s[..k])] + later;
      } else {
        KeyIsInFront(s[..k], later, []);
        fs := KeyInFront(s[..k], later);
      }
    }
  }

  lemma CutAt(s: bytes, k: nat)
    requires k <= |s|
    ensures if k == |s| then s[..k] == s else s == s[..k] + ([s[k]] + s[k + 1..])
  {
  }

  // ------------------------------------------------------------------- trim

  ghost predicate Trimmed(s: bytes) {
    s != [] ==> s[0] != SPACE && s[|s| - 1] != SPACE
  }

  ghost predicate Blank(s: bytes) {
    forall i :: 0 <= i < |s| ==> s[i] == SPACE
  }

  function Trim(s: bytes): bytes {
    if s == [] then []
    else if s[0] == SPACE then Trim(s[1..])
    else if s[|s| - 1] == SPACE then Trim(s[..|s| - 1])
    else s
  }

  /** Spaces around a trimmed string are exactly what trimming removes. */
  lemma {:induction false} TrimUndoesPadding(left: bytes, t: bytes, right: bytes)
    requires Blank(left) && Trimmed(t) && Blank(right)
    ensures Trim(left + (t + right)) == t
    decreases |left| + |right|
  {
    var s := left + (t + right);
    if left != [] {
      assert s[1..] == left[1..] + (t + right);
      TrimUndoesPadding(left[1..], t, right);
    } else if right != [] {
      assert s == t + right;
      if t == [] {
        assert s[1..] == [] + ([] + right[1..]);
        TrimUndoesPadding([], t, right[1..]);
      } else {
        assert s[..|s| - 1] == [] + (t + right[..|right| - 1]);
        TrimUndoesPadding([], t, right[..|right| - 1]);
      }
    } else {
      assert s == t;
    }
  }

  /** Every string is a trimmed one with spaces around it. */
  lemma {:induction false} TrimLeavesPadding(s: bytes) returns (left: bytes, right: bytes)
    ensures Blank(left) && Blank(right) && Trimmed(Trim(s)) && s == left + (Trim(s) + right)
  {
    left, right := [], [];
    if s != [] {
      if s[0] == SPACE {
        left, right := TrimLeavesPadding(s[1..]);
        assert s == [SPACE] + s[1..];
        left := [SPACE] + left;
      } else if s[|s| - 1] == SPACE {
        left, right := TrimLeavesPadding(s[..|s| - 1]);
        assert s == s[..|s| - 1] + [SPACE];
        right := right + [SPACE];
      }
    }
  }

  method TrimString(s: bytes) returns (t: bytes)
    ensures t == Trim(s)
  {
    var start: nat := 0;
    while start < |s| && s[start] == SPACE
      invariant start <= |s| && Blank(s[..start])
    {
      start := start + 1;
    }
    if start == |s| {
      assert s == s[..start] + ([] + []);
      TrimUndoesPadding(s[..start], [], []);
      return [];
    }
    var end: nat := |s| - 1;
    while end > start && s[end] == SPACE
      invariant start <= end < |s| && Blank(s[end + 1..])
    {
      end := end - 1;
    }
    t := s[start..start + (end - start + 1)];
    assert s == s[..start] + (t + s[end + 1..]);
    TrimUndoesPadding(s[..start], t, s[end + 1..]);
  }

  // ------------------------------------------------- case-insensitive search

  /** `search` occurs at index i, up to the case of ASCII letters. */
  predicate OccursAt(text: bytes, search: bytes, i: int) {
    0 <= i <= |text| - |search| && Lower(text[i..i + |search|]) == Lower(search)
  }

  ghost predicate ContainsCaseInsensitive(text: bytes, search: bytes) {
    exists i :: OccursAt(text, search, i)
  }

  /** The first occurrence, or -1 (`npos`) if there is none. */
  method FindCaseInsensitive(text: bytes, search: bytes) returns (pos: int)
    ensures pos == -1 || OccursAt(text, search, pos)
    ensures forall i :: 0 <= i && (pos == -1 || i < pos) ==> !OccursAt(text, search, i)
    ensures pos == -1 <==> !ContainsCaseInsensitive(text, search)
  {
    if search == [] {
      assert OccursAt(text, search, 0);
      return 0;
    }
    var lastPos := |text| - |search|;
    var i := 0;
    while i <= lastPos
      invariant 0 <= i && forall k :: 0 <= k < i ==> !OccursAt(text, search, k)
    {
      var j := 0;
      while j < |search| && LowerByte(text[i + j]) == LowerByte(search[j])
        invariant 0 <= j <= |search|
        invariant forall k :: 0 <= k < j ==> Lower(text[i..i + |search|])[k] == Lower(search)[k]
      {
        j := j + 1;
      }
      if j == |search| {
        assert OccursAt(text, search, i);
        return i;
      }
      assert Lower(text[i..i + |search|])[j] != Lower(search)[j];
      i := i + 1;
    }
    return -1;
  }

  /** Case is that of the ASCII letters, and of nothing else. */
  lemma CaseIsAscii()
    ensures Lower(Lit("ABCDEFGHIJKLMNOPQRSTUVWXYZ")) == Lit("abcdefghijklmnopqrstuvwxyz")
    ensures forall c: byte :: c !in Lit("ABCDEFGHIJKLMNOPQRSTUVWXYZ") ==> LowerByte(c) == c
  {
    var upper, lower := Lit("ABCDEFGHIJKLMNOPQRSTUVWXYZ"), Lit("abcdefghijklmnopqrstuvwxyz");
    forall v: nat | v < 26 ensures upper[v] == 65 + v && lower[v] == 97 + v {
      UpperCase(v);
      LowerCase(v);
    }
    hide Lit;
    forall c: byte | 65 <= c <= 90 ensures c in upper {
      assert upper[c - 65] == c;
    }
    assert Lower(upper) == lower;
  }

  // ------------------------------------------------------------- header map

  datatype Header = Header(name: bytes, value: bytes)

  /** `header_map`: keys compare without case, and the first spelling of a name stays. */
  type HeaderMap = map<bytes, Header>

  function Put(m: HeaderMap, name: bytes, value: bytes): HeaderMap {
    var k := Lower(name);
    if k in m then m[k := m[k].(value := value)] else m[k := Header(name, value)]
  }

  function Get(m: HeaderMap, name: bytes): Option<bytes> {
    var k := Lower(name);
    if k in m then Some(m[k].value) else None
  }

  function PutAll(m: HeaderMap, hs: seq<Header>): HeaderMap
    decreases |hs|
  {
    if hs == [] then m else PutAll(Put(m, hs[0].name, hs[0].value), hs[1..])
  }

  ghost predicate IsNamed(h: Header, name: bytes) {
    Lower(h.name) == Lower(name)
  }

  ghost predicate Lacks(hs: seq<Header>, name: bytes) {
    forall i :: 0 <= i < |hs| ==> !IsNamed(hs[i], name)
  }

  lemma PutIsGot(m: HeaderMap, h: Header, name: bytes)
    ensures Get(Put(m, h.name, h.value), name) == if IsNamed(h, name) then Some(h.value) else Get(m, name)
    ensures Lower(h.name) in Put(m, h.name, h.value)
    ensures Put(m, h.name, h.value)[Lower(h.name)].name
      == if Lower(h.name) in m then m[Lower(h.name)].name else h.name
    ensures forall k :: k != Lower(h.name) ==>
      (k in Put(m, h.name, h.value) <==> k in m) && (k in m ==> Put(m, h.name, h.value)[k] == m[k])
  {
    hide Lower;
  }

  /** The value that the map ends up with is that of the last header of the name, whatever its case. */
  lemma {:induction false} LastValueStays(m: HeaderMap, hs: seq<Header>, name: bytes, i: nat)
    ensures Lacks(hs, name) ==> Get(PutAll(m, hs), name) == Get(m, name)
    ensures i < |hs| && IsNamed(hs[i], name) && Lacks(hs[i + 1..], name) ==>
      Get(PutAll(m, hs), name) == Some(hs[i].value)
    decreases |hs|
  {
    hide Lower, Put, Get, IsNamed;
    if hs != [] {
      var m1, rest := Put(m, hs[0].name, hs[0].value), hs[1..];
      PutIsGot(m, hs[0], name);
      assert hs[0] == Header(hs[0].name, hs[0].value);
      assert forall j :: 0 <= j < |rest| ==> rest[j] == hs[j + 1];
      LastValueStays(m1, rest, name, if i == 0 then 0 else i - 1);
      if 0 < i < |hs| {
        assert rest[i..] == hs[i + 1..];
      }
    }
  }

  /** A name that occurs has a last occurrence. */
  lemma {:induction false} LastOccurrence(hs: seq<Header>, name: bytes) returns (i: nat)
    requires !Lacks(hs, name)
    ensures i < |hs| && IsNamed(hs[i], name) && Lacks(hs[i + 1..], name)
    decreases |hs|
  {
    hide IsNamed;
    var n := |hs| - 1;
    if IsNamed(hs[n], name) {
      i := n;
    } else {
      var front := hs[..n];
      i := LastOccurrence(front, name);
      var back, short := hs[i + 1..], front[i + 1..];
      assert back == short + [hs[n]];
    }
  }

  /** A header keeps the spelling of its name that came first. */
  lemma {:induction false} FirstSpellingStays(m: HeaderMap, hs: seq<Header>, i: nat)
    requires i < |hs| && Lower(hs[i].name) !in m && Lacks(hs[..i], hs[i].name)
    ensures Lower(hs[i].name) in PutAll(m, hs) && PutAll(m, hs)[Lower(hs[i].name)].name == hs[i].name
    decreases i
  {
    hide Lower, Put;
    var m1, rest := Put(m, hs[0].name, hs[0].value), hs[1..];
    PutIsGot(m, hs[0], hs[i].name);
    if i == 0 {
      SpellingStays(m1, rest, Lower(hs[0].name));
    } else {
      assert !IsNamed(hs[..i][0], hs[i].name);
      var before, before1 := hs[..i], rest[..i - 1];
      assert forall j :: 0 <= j < |before1| ==> before1[j] == before[j + 1];
      FirstSpellingStays(m1, rest, i - 1);
    }
  }

  lemma {:induction false} SpellingStays(m: HeaderMap, hs: seq<Header>, k: bytes)
    requires k in m
    ensures k in PutAll(m, hs) && PutAll(m, hs)[k].name == m[k].name
    decreases |hs|
  {
    hide Lower, Put;
    if hs != [] {
      PutIsGot(m, hs[0], k);
      SpellingStays(Put(m, hs[0].name, hs[0].value), hs[1..], k);
    }
  }

  function ValueOr(o: Option<bytes>, default: bytes): bytes {
    if o.Some? then o.value else default
  }
}
