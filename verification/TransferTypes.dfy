/** examples/gen-cpp/transfer_types.cpp: the generated classes LoginParam, OneFile and OneFileDeriveEx. */
module TransferTypes {
  import opened MachineInts
  import opened BinaryProtocol
  import opened ThriftStructs

  const LOGIN_PARAM: seq<Field> := [
    Field(1, ByteType, false), Field(2, StringType, false), Field(3, StringType, false), Field(4, StringType, false),
    Field(5, ByteType, false), Field(16, ByteType, true), Field(17, StringType, true), Field(18, ByteType, true),
    Field(20, ByteType, true), Field(21, StringType, true), Field(22, StringType, true), Field(23, I64Type, true),
    Field(24, StringType, true), Field(25, StringType, true), Field(200, StringType, true)]

  const LOGIN_IDS: set<i16> := {1, 2, 3, 4, 5, 16, 17, 18, 20, 21, 22, 23, 24, 25, 200}

  const ONE_FILE: seq<Field> := [
    Field(1, StringType, false), Field(2, StringType, false), Field(3, StringType, false), Field(4, I64Type, false),
    Field(5, StringType, false)]

  const ONE_FILE_DERIVE_EX: seq<Field> := [
    Field(1, StructType(ONE_FILE), false), Field(2, StringType, false), Field(3, I32Type, false)]

  datatype LoginParam = LoginParam(
    userType: i8, user: seq<byte>, pwd: seq<byte>, macAddr: seq<byte>, deviceType: i8, tick: i8,
    deviceInfo: seq<byte>, status: i8, statusFlag: i8, clientIP: seq<byte>, version: seq<byte>, sdkid: i64,
    markSign: seq<byte>, redirectUri: seq<byte>, ip: seq<byte>,
    isset: set<i16>)
  {
    function ToStruct(): Struct {
      Struct(map id | id in LOGIN_IDS :: Member(id), isset)
    }

    function Member(id: i16): FieldValue {
      if id == 1 then ByteValue(userType)
      else if id == 2 then StringValue(user)
      else if id == 3 then StringValue(pwd)
      else if id == 4 then StringValue(macAddr)
      else if id == 5 then ByteValue(deviceType)
      else if id == 16 then ByteValue(tick)
      else if id == 17 then StringValue(deviceInfo)
      else if id == 18 then ByteValue(status)
      else if id == 20 then ByteValue(statusFlag)
      else if id == 21 then StringValue(clientIP)
      else if id == 22 then StringValue(version)
      else if id == 23 then I64Value(sdkid)
      else if id == 24 then StringValue(markSign)
      else if id == 25 then StringValue(redirectUri)
      else StringValue(ip)
    }

    predicate Within(maxSize: int) {
      forall str | str in {user, pwd, macAddr, deviceInfo, clientIP, version, markSign, redirectUri, ip} :: |str| <= maxSize
    }
  }

  datatype OneFile = OneFile(
    name: seq<byte>, fileType: seq<byte>, fileBuffer: seq<byte>, fileSize: i64, fileHsh: seq<byte>, isset: set<i16>)
  {
    function ToStruct(): Struct {
      Struct(
        map[
          1 := StringValue(name), 2 := StringValue(fileType), 3 := StringValue(fileBuffer), 4 := I64Value(fileSize),
          5 := StringValue(fileHsh)],
        isset)
    }

    predicate Within(maxSize: int) {
      forall str | str in {name, fileType, fileBuffer, fileHsh} :: |str| <= maxSize
    }
  }

  datatype OneFileDeriveEx = OneFileDeriveEx(oneFileObj: OneFile, strExtent1: seq<byte>, intExtent1: i32, isset: set<i16>)
  {
    function ToStruct(): Struct {
      Struct(map[1 := StructValue(oneFileObj.ToStruct()), 2 := StringValue(strExtent1), 3 := I32Value(intExtent1)], isset)
    }

    predicate Within(maxSize: int) { oneFileObj.Within(maxSize) && |strExtent1| <= maxSize }
  }

  // ----- the text of each class -----

  /** One field: type code, id with its high byte 0, value. */
  function OnWire(code: byte, id: byte, value: seq<byte>): seq<byte> { [code, 0, id] + value }

  /** An optional field: there only when its flag is up. */
  function WhenSet(isset: set<i16>, code: byte, id: byte, value: seq<byte>): seq<byte> {
    if (id as int) in isset then OnWire(code, id, value) else []
  }

  function LoginPieces(p: LoginParam): seq<seq<byte>> {
    [OnWire(3, 1, ByteText(p.userType)),
     OnWire(11, 2, StringText(p.user)),
     OnWire(11, 3, StringText(p.pwd)),
     OnWire(11, 4, StringText(p.macAddr)),
     OnWire(3, 5, ByteText(p.deviceType)),
     WhenSet(p.isset, 3, 16, ByteText(p.tick)),
     WhenSet(p.isset, 11, 17, StringText(p.deviceInfo)),
     WhenSet(p.isset, 3, 18, ByteText(p.status)),
     WhenSet(p.isset, 3, 20, ByteText(p.statusFlag)),
     WhenSet(p.isset, 11, 21, StringText(p.clientIP)),
     WhenSet(p.isset, 11, 22, StringText(p.version)),
     WhenSet(p.isset, 10, 23, Network64(p.sdkid)),
     WhenSet(p.isset, 11, 24, StringText(p.markSign)),
     WhenSet(p.isset, 11, 25, StringText(p.redirectUri)),
     WhenSet(p.isset, 11, 200, StringText(p.ip))]
  }

  function OneFilePieces(o: OneFile): seq<seq<byte>> {
    [OnWire(11, 1, StringText(o.name)),
     OnWire(11, 2, StringText(o.fileType)),
     OnWire(11, 3, StringText(o.fileBuffer)),
     OnWire(10, 4, Network64(o.fileSize)),
     OnWire(11, 5, StringText(o.fileHsh))]
  }

  function OneFileDeriveExPieces(o: OneFileDeriveEx): seq<seq<byte>> {
    [OnWire(12, 1, Flat(OneFilePieces(o.oneFileObj)) + [0]),
     OnWire(11, 2, StringText(o.strExtent1)),
     OnWire(8, 3, Network32(o.intExtent1))]
  }

  function Flat(pieces: seq<seq<byte>>): seq<byte> {
    if pieces == [] then [] else pieces[0] + Flat(pieces[1..])
  }

  /** What one block of a generated write puts out. */
  function Piece(f: Field, s: Struct): seq<byte>
    requires MemberFits(f, s, -1)
  {
    if Written(f, s) then FieldText(f, s) else []
  }

  lemma {:induction false} TextOfPieces(fields: seq<Field>, s: Struct, pieces: seq<seq<byte>>)
    requires AllFit(fields, s, -1) && |pieces| == |fields|
    requires forall k | 0 <= k < |fields| :: MemberFits(fields[k], s, -1) && pieces[k] == Piece(fields[k], s)
    ensures FieldsText(fields, s) == Flat(pieces)
  {
    if fields != [] {
      TextOfPieces(fields[1..], s, pieces[1..]);
      hide FieldText, Written, MemberFits;
    }
  }

  lemma PieceIs(f: Field, s: Struct, code: byte)
    requires MemberFits(f, s, -1) && 0 <= f.id < 256 && code as int == Code(f.fieldType)
    ensures Piece(f, s)
         == if f.optional then WhenSet(s.isset, code, f.id, ValueIn(f, s)) else OnWire(code, f.id, ValueIn(f, s))
  {
    FieldBeginBytes(Code(f.fieldType), f.id);
    assert ByteText(Code(f.fieldType)) + I16Text(f.id) == [code, 0, f.id];
  }

  /** The bytes of a LoginParam: which member travels under which id and type, and which only when set. */
  lemma LoginParamText(p: LoginParam)
    ensures AllFit(LOGIN_PARAM, p.ToStruct(), -1)
    ensures FieldsText(LOGIN_PARAM, p.ToStruct()) + ByteText(T_STOP) == Flat(LoginPieces(p)) + [0]
  {
    var s := p.ToStruct();
    LoginParamFitsAny(p);
    forall k | 0 <= k < |LOGIN_PARAM|
      ensures MemberFits(LOGIN_PARAM[k], s, -1) && LoginPieces(p)[k] == Piece(LOGIN_PARAM[k], s)
    {
      LoginPiece(p, k);
    }
    hide *;
    LoginPieceCount(p);
    StopByte();
    TextOfPieces(LOGIN_PARAM, s, LoginPieces(p));
  }

  lemma StopByte()
    ensures ByteText(T_STOP) == [0]
  {
  }

  lemma LoginPieceCount(p: LoginParam)
    ensures |LoginPieces(p)| == |LOGIN_PARAM|
  {
  }

  lemma LoginParamFitsAny(p: LoginParam)
    ensures AllFit(LOGIN_PARAM, p.ToStruct(), -1)
    ensures forall f | f in LOGIN_PARAM :: MemberFits(f, p.ToStruct(), -1)
  {
    forall f | f in LOGIN_PARAM
      ensures MemberFits(f, p.ToStruct(), -1)
    {
      LoginTable(f);
      assert Fits(f.fieldType, p.Member(f.id), -1);
    }
    AllFitMembers(LOGIN_PARAM, p.ToStruct(), -1);
  }

  lemma LoginPiece(p: LoginParam, k: nat)
    requires k < |LOGIN_PARAM|
    ensures MemberFits(LOGIN_PARAM[k], p.ToStruct(), -1) && LoginPieces(p)[k] == Piece(LOGIN_PARAM[k], p.ToStruct())
  {
    var f, s := LOGIN_PARAM[k], p.ToStruct();
    LoginParamFitsAny(p);
    LoginTable(f);
    hide *;
    LoginRow(p, k);
    PieceIs(f, s, LoginCode(k));
  }

  function LoginCode(k: nat): byte { if k in {0, 4, 5, 7, 8} then 3 else if k == 11 then 10 else 11 }

  function ValueIn(f: Field, s: Struct): seq<byte>
    requires MemberFits(f, s, -1)
  {
    ValueText(f.fieldType, s.values[f.id])
  }

  lemma LoginRow(p: LoginParam, k: nat)
    requires k < |LOGIN_PARAM|
    ensures |LoginPieces(p)| == |LOGIN_PARAM| && MemberFits(LOGIN_PARAM[k], p.ToStruct(), -1)
    ensures var f, value := LOGIN_PARAM[k], ValueIn(LOGIN_PARAM[k], p.ToStruct());
            && 0 <= f.id < 256 && LoginCode(k) as int == Code(f.fieldType)
            && LoginPieces(p)[k]
            == if f.optional then WhenSet(p.isset, LoginCode(k), f.id, value) else OnWire(LoginCode(k), f.id, value)
  {
    hide *;
    LoginKind(k);
    LoginParamFitsAny(p);
    LoginTable(LOGIN_PARAM[k]);
    ValueOfMember(LOGIN_PARAM[k], p.ToStruct());
    LoginMember(p, LOGIN_PARAM[k].id);
    LoginPieceIs(p, k);
  }

  lemma LoginKind(k: nat)
    requires k < |LOGIN_PARAM|
    ensures LOGIN_PARAM[k] in LOGIN_PARAM && 0 <= LOGIN_PARAM[k].id < 256 && (LOGIN_PARAM[k].optional <==> k >= 5)
    ensures LoginCode(k) as int == Code(LOGIN_PARAM[k].fieldType)
  {
  }

  lemma LoginMember(p: LoginParam, id: i16)
    requires id in LOGIN_IDS
    ensures id in p.ToStruct().values && p.ToStruct().values[id] == p.Member(id) && p.ToStruct().isset == p.isset
  {
  }

  lemma LoginPieceIs(p: LoginParam, k: nat)
    requires k < |LOGIN_PARAM| && 0 <= LOGIN_PARAM[k].id < 256
    ensures |LoginPieces(p)| == |LOGIN_PARAM|
    ensures var id := LOGIN_PARAM[k].id;
            var value := MemberText(p.Member(id));
            LoginPieces(p)[k]
            == if k >= 5 then WhenSet(p.isset, LoginCode(k), id, value) else OnWire(LoginCode(k), id, value)
  {
    hide WhenSet, OnWire, ByteText, StringText, Network64;
  }

  function MemberText(v: FieldValue): seq<byte> {
    match v
    case ByteValue(b) => ByteText(b)
    case I32Value(i) => Network32(i)
    case I64Value(l) => Network64(l)
    case StringValue(str) => StringText(str)
    case StructValue(_) => []
  }

  lemma ValueOfMember(f: Field, s: Struct)
    requires MemberFits(f, s, -1) && !f.fieldType.StructType?
    ensures ValueIn(f, s) == MemberText(s.values[f.id])
  {
  }

  /** The bytes of a OneFile. */
  lemma OneFileText(o: OneFile)
    ensures AllFit(ONE_FILE, o.ToStruct(), -1)
    ensures FieldsText(ONE_FILE, o.ToStruct()) + ByteText(T_STOP) == Flat(OneFilePieces(o)) + [0]
  {
    var s := o.ToStruct();
    AllFitMembers(ONE_FILE, s, -1);
    forall k | 0 <= k < |ONE_FILE|
      ensures MemberFits(ONE_FILE[k], s, -1) && OneFilePieces(o)[k] == Piece(ONE_FILE[k], s)
    {
      OneFilePiece(o, k);
    }
    hide FieldsText, Piece, MemberFits;
    TextOfPieces(ONE_FILE, s, OneFilePieces(o));
  }

  lemma OneFilePiece(o: OneFile, k: nat)
    requires k < |ONE_FILE|
    ensures MemberFits(ONE_FILE[k], o.ToStruct(), -1) && OneFilePieces(o)[k] == Piece(ONE_FILE[k], o.ToStruct())
  {
    hide Piece, OnWire, WhenSet, ByteText, StringText, Network64;
    PieceIs(ONE_FILE[k], o.ToStruct(), if k == 3 then 10 else 11);
  }

  /** The bytes of a OneFileDeriveEx; the OneFile in it ends with a stop of its own. */
  lemma OneFileDeriveExText(o: OneFileDeriveEx)
    ensures AllFit(ONE_FILE_DERIVE_EX, o.ToStruct(), -1)
    ensures FieldsText(ONE_FILE_DERIVE_EX, o.ToStruct()) + ByteText(T_STOP) == Flat(OneFileDeriveExPieces(o)) + [0]
  {
    var s := o.ToStruct();
    TablesDistinct();
    OneFileText(o.oneFileObj);
    hide FieldsText;
    AllFitMembers(ONE_FILE_DERIVE_EX, s, -1);
    forall k | 0 <= k < |ONE_FILE_DERIVE_EX|
      ensures OneFileDeriveExPieces(o)[k] == Piece(ONE_FILE_DERIVE_EX[k], s)
    {
      var f := ONE_FILE_DERIVE_EX[k];
      PieceIs(f, s, if k == 0 then 12 else if k == 1 then 11 else 8);
    }
    TextOfPieces(ONE_FILE_DERIVE_EX, s, OneFileDeriveExPieces(o));
  }

  // ----- the constructors and operator == -----

  const EMPTY_LOGIN: LoginParam := LoginParam(0, [], [], [], 0, 0, [], 0, 0, [], [], 0, [], [], [], {})

  /** What LoginParam() leaves: zeros, empty strings and no flag. */
  lemma LoginParamFresh()
    ensures Fresh(LOGIN_PARAM) == EMPTY_LOGIN.ToStruct()
  {
    hide *;
    TablesDistinct();
    FreshMembers(LOGIN_PARAM);
    EmptyLogin();
    forall id {
      FreshLoginMember(id);
    }
    assert Fresh(LOGIN_PARAM).values == EMPTY_LOGIN.ToStruct().values;
  }

  lemma FreshLoginMember(id: i16)
    ensures id in Fresh(LOGIN_PARAM).values <==> id in LOGIN_IDS
    ensures id in LOGIN_IDS ==> id in EMPTY_LOGIN.ToStruct().values
    ensures id in LOGIN_IDS ==> Fresh(LOGIN_PARAM).values[id] == EMPTY_LOGIN.ToStruct().values[id]
  {
    hide *;
    TablesDistinct();
    FreshMembers(LOGIN_PARAM);
    LoginIds(id);
    if id in LOGIN_IDS {
      var k :| 0 <= k < |LOGIN_PARAM| && LOGIN_PARAM[k].id == id;
      LoginMember(EMPTY_LOGIN, id);
      LoginDefault(k);
    }
  }

  lemma EmptyLogin()
    ensures EMPTY_LOGIN.ToStruct().isset == {} && forall id :: id in EMPTY_LOGIN.ToStruct().values <==> id in LOGIN_IDS
  {
  }

  lemma LoginIds(id: i16)
    ensures id in LOGIN_IDS <==> exists k | 0 <= k < |LOGIN_PARAM| :: LOGIN_PARAM[k].id == id
  {
    var ids := [1, 2, 3, 4, 5, 16, 17, 18, 20, 21, 22, 23, 24, 25, 200];
    assert id in LOGIN_IDS <==> id in ids;
    assert forall k | 0 <= k < |LOGIN_PARAM| :: LOGIN_PARAM[k].id == ids[k];
    assert |ids| == |LOGIN_PARAM|;
    hide *;
    if id in ids {
      var k :| 0 <= k < |ids| && ids[k] == id;
      assert LOGIN_PARAM[k].id == id;
    }
  }

  lemma LoginDefault(k: nat)
    requires k < |LOGIN_PARAM|
    ensures DefaultMember(LOGIN_PARAM[k]) == EMPTY_LOGIN.Member(LOGIN_PARAM[k].id)
  {
    LoginKind(k);
    LoginTable(LOGIN_PARAM[k]);
    hide LOGIN_PARAM;
  }

  lemma {:induction false} FreshMembers(fields: seq<Field>)
    requires DistinctIds(fields)
    ensures Fresh(fields).isset == {}
    ensures forall id :: id in Fresh(fields).values <==> exists k | 0 <= k < |fields| :: fields[k].id == id
    ensures forall k | 0 <= k < |fields| :: Fresh(fields).values[fields[k].id] == DefaultMember(fields[k])
  {
    if fields != [] {
      FreshMembers(fields[1..]);
      hide DefaultMember;
      forall id
        ensures id in Fresh(fields).values <==> exists k | 0 <= k < |fields| :: fields[k].id == id
      {
        if k :| 0 <= k < |fields| && fields[k].id == id {
          assert k > 0 ==> fields[1..][k - 1].id == id;
        }
        if k :| 0 <= k < |fields[1..]| && fields[1..][k].id == id {
          assert fields[k + 1].id == id;
        }
      }
    }
  }

  /** An optional member in operator ==. */
  predicate SameWhenSet(p: LoginParam, q: LoginParam, id: i16, same: bool) {
    (id in p.isset <==> id in q.isset) && (id in p.isset ==> same)
  }

  function LoginEqualities(p: LoginParam, q: LoginParam): seq<bool> {
    [p.userType == q.userType,
     p.user == q.user,
     p.pwd == q.pwd,
     p.macAddr == q.macAddr,
     p.deviceType == q.deviceType,
     SameWhenSet(p, q, 16, p.tick == q.tick),
     SameWhenSet(p, q, 17, p.deviceInfo == q.deviceInfo),
     SameWhenSet(p, q, 18, p.status == q.status),
     SameWhenSet(p, q, 20, p.statusFlag == q.statusFlag),
     SameWhenSet(p, q, 21, p.clientIP == q.clientIP),
     SameWhenSet(p, q, 22, p.version == q.version),
     SameWhenSet(p, q, 23, p.sdkid == q.sdkid),
     SameWhenSet(p, q, 24, p.markSign == q.markSign),
     SameWhenSet(p, q, 25, p.redirectUri == q.redirectUri),
     SameWhenSet(p, q, 200, p.ip == q.ip)]
  }

  /** LoginParam's operator ==: the tests of the source, all of them. */
  lemma LoginParamEqual(p: LoginParam, q: LoginParam)
    ensures AllEqual(LOGIN_PARAM, p.ToStruct(), q.ToStruct())
       <==> forall k | 0 <= k < |LoginEqualities(p, q)| :: LoginEqualities(p, q)[k]
  {
    hide *;
    AllEqualMembers(LOGIN_PARAM, p.ToStruct(), q.ToStruct());
    forall k | 0 <= k < |LOGIN_PARAM|
      ensures LOGIN_PARAM[k] in LOGIN_PARAM && k < |LoginEqualities(p, q)|
      ensures MemberEqual(LOGIN_PARAM[k], p.ToStruct(), q.ToStruct()) <==> LoginEqualities(p, q)[k]
    {
      LoginMemberEqual(p, q, k);
    }
    LoginEqualityCount(p, q);
  }

  lemma LoginEqualityCount(p: LoginParam, q: LoginParam)
    ensures |LoginEqualities(p, q)| == |LOGIN_PARAM|
  {
  }

  lemma LoginMemberEqual(p: LoginParam, q: LoginParam, k: nat)
    requires k < |LOGIN_PARAM|
    ensures |LoginEqualities(p, q)| == |LOGIN_PARAM|
    ensures MemberEqual(LOGIN_PARAM[k], p.ToStruct(), q.ToStruct()) <==> LoginEqualities(p, q)[k]
  {
    hide *;
    var f := LOGIN_PARAM[k];
    LoginKind(k);
    LoginTable(f);
    LoginMember(p, f.id);
    LoginMember(q, f.id);
    LoginEqualityIs(p, q, k);
    SimpleMemberEqual(f, p.ToStruct(), q.ToStruct());
    WhenSetIs(p, q, f.id, p.Member(f.id) == q.Member(f.id));
  }

  lemma WhenSetIs(p: LoginParam, q: LoginParam, id: i16, same: bool)
    ensures SameWhenSet(p, q, id, same) <==> (id in p.isset <==> id in q.isset) && (id in p.isset ==> same)
  {
  }

  lemma LoginEqualityIs(p: LoginParam, q: LoginParam, k: nat)
    requires k < |LOGIN_PARAM|
    ensures |LoginEqualities(p, q)| == |LOGIN_PARAM|
    ensures var id := LOGIN_PARAM[k].id;
            LoginEqualities(p, q)[k]
            <==> if k >= 5 then SameWhenSet(p, q, id, p.Member(id) == q.Member(id)) else p.Member(id) == q.Member(id)
  {
    hide SameWhenSet;
    // k by k: the required members, and the optional ones in two halves
    if k < 5 {
    } else if k < 10 {
    } else {
    }
  }

  lemma SimpleMemberEqual(f: Field, s: Struct, o: Struct)
    requires f.id in s.values && f.id in o.values && !f.fieldType.StructType?
    ensures var same := s.values[f.id] == o.values[f.id];
            MemberEqual(f, s, o)
            <==> if f.optional then (f.id in s.isset <==> f.id in o.isset) && (f.id in s.isset ==> same) else same
  {
  }

  /** OneFileDeriveEx's operator ==, and OneFile's in it; flags do not matter. */
  lemma OneFileDeriveExEqual(o: OneFileDeriveEx, q: OneFileDeriveEx)
    ensures AllEqual(ONE_FILE_DERIVE_EX, o.ToStruct(), q.ToStruct())
       <==> && OneFilesEqual(o.oneFileObj, q.oneFileObj)
            && o.strExtent1 == q.strExtent1 && o.intExtent1 == q.intExtent1
  {
    var s, t := o.ToStruct(), q.ToStruct();
    AllEqualMembers(ONE_FILE_DERIVE_EX, s, t);
    OneFileEqual(o.oneFileObj, q.oneFileObj);
    hide OneFilesEqual, OneFile.ToStruct, ONE_FILE;
    SimpleMemberEqual(ONE_FILE_DERIVE_EX[1], s, t);
    SimpleMemberEqual(ONE_FILE_DERIVE_EX[2], s, t);
    hide AllEqual;
    assert MemberEqual(ONE_FILE_DERIVE_EX[0], s, t) <==> AllEqual(ONE_FILE, o.oneFileObj.ToStruct(), q.oneFileObj.ToStruct());
  }

  predicate OneFilesEqual(o: OneFile, q: OneFile) {
    && o.name == q.name && o.fileType == q.fileType && o.fileBuffer == q.fileBuffer
    && o.fileSize == q.fileSize && o.fileHsh == q.fileHsh
  }

  lemma OneFileEqual(o: OneFile, q: OneFile)
    ensures AllEqual(ONE_FILE, o.ToStruct(), q.ToStruct()) <==> OneFilesEqual(o, q)
  {
    var s, t := o.ToStruct(), q.ToStruct();
    AllEqualMembers(ONE_FILE, s, t);
    forall k | 0 <= k < |ONE_FILE| {
      SimpleMemberEqual(ONE_FILE[k], s, t);
    }
    hide AllEqual, MemberEqual;
  }

  // ----- reading back -----

  lemma TablesDistinct()
    ensures DistinctIds(LOGIN_PARAM) && DistinctIds(ONE_FILE) && DistinctIds(ONE_FILE_DERIVE_EX)
  {
  }

  lemma LoginParamFits(p: LoginParam, maxSize: int)
    requires maxSize >= 0 && p.Within(maxSize)
    ensures AllFit(LOGIN_PARAM, p.ToStruct(), maxSize)
  {
    forall f | f in LOGIN_PARAM
      ensures MemberFits(f, p.ToStruct(), maxSize)
    {
      LoginMemberFits(p, f, maxSize);
    }
    AllFitMembers(LOGIN_PARAM, p.ToStruct(), maxSize);
  }

  lemma LoginMemberFits(p: LoginParam, f: Field, maxSize: int)
    requires maxSize >= 0 && p.Within(maxSize) && f in LOGIN_PARAM
    ensures MemberFits(f, p.ToStruct(), maxSize)
  {
    LoginTable(f);
    assert Fits(f.fieldType, p.Member(f.id), maxSize);
  }

  lemma LoginTable(f: Field)
    requires f in LOGIN_PARAM
    ensures f.id in LOGIN_IDS
    ensures f.fieldType == if f.id in {1, 5, 16, 18, 20} then ByteType else if f.id == 23 then I64Type else StringType
  {
  }

  lemma OneFileFits(o: OneFile, maxSize: int)
    requires maxSize >= 0 && o.Within(maxSize)
    ensures AllFit(ONE_FILE, o.ToStruct(), maxSize)
  {
    AllFitMembers(ONE_FILE, o.ToStruct(), maxSize);
  }

  lemma OneFileDeriveExFits(o: OneFileDeriveEx, maxSize: int)
    requires maxSize >= 0 && o.Within(maxSize)
    ensures AllFit(ONE_FILE_DERIVE_EX, o.ToStruct(), maxSize)
  {
    TablesDistinct();
    OneFileFits(o.oneFileObj, maxSize);
    AllFitMembers(ONE_FILE_DERIVE_EX, o.ToStruct(), maxSize);
  }

  /**
   A LoginParam read back, from its text followed by anything, equals the written one; its fields may stand in any order,
   with fields it does not know between them.
   */
  lemma LoginParamReadBack(p: LoginParam, order: seq<Placed>, rest: seq<byte>, rd: Reader)
    requires p.Within(MaxSize(rd)) && Arranges(order, LOGIN_PARAM, p.ToStruct(), rd)
    ensures AllFit(LOGIN_PARAM, p.ToStruct(), -1)
    ensures var s := p.ToStruct();
            var r := ReadFields(LOGIN_PARAM, Fresh(LOGIN_PARAM), s);
            && AllEqual(LOGIN_PARAM, r, s)
            && ParseFields(LOGIN_PARAM, Fresh(LOGIN_PARAM), FieldsText(LOGIN_PARAM, s) + ByteText(T_STOP) + rest, rd)
            == ParseFields(LOGIN_PARAM, Fresh(LOGIN_PARAM), ArrangedText(order, s) + ByteText(T_STOP) + rest, rd)
            == Value(r, rest)
  {
    hide *;
    TablesDistinct();
    LoginParamFits(p, MaxSize(rd));
    StructReadBack(LOGIN_PARAM, p.ToStruct(), rest, rd);
    AnyOrderReadBack(LOGIN_PARAM, order, p.ToStruct(), rest, rd);
  }

  /** The same for a OneFileDeriveEx and for the fields of the OneFile in it. */
  lemma OneFileDeriveExReadBack(o: OneFileDeriveEx, order: seq<Placed>, rest: seq<byte>, rd: Reader)
    requires o.Within(MaxSize(rd)) && Arranges(order, ONE_FILE_DERIVE_EX, o.ToStruct(), rd)
    ensures AllFit(ONE_FILE_DERIVE_EX, o.ToStruct(), -1)
    ensures var s := o.ToStruct();
            var r := ReadFields(ONE_FILE_DERIVE_EX, Fresh(ONE_FILE_DERIVE_EX), s);
            && AllEqual(ONE_FILE_DERIVE_EX, r, s)
            && ParseFields(ONE_FILE_DERIVE_EX, Fresh(ONE_FILE_DERIVE_EX),
                           FieldsText(ONE_FILE_DERIVE_EX, s) + ByteText(T_STOP) + rest, rd)
            == ParseFields(ONE_FILE_DERIVE_EX, Fresh(ONE_FILE_DERIVE_EX),
                           ArrangedText(order, s) + ByteText(T_STOP) + rest, rd)
            == Value(r, rest)
  {
    hide *;
    TablesDistinct();
    OneFileDeriveExFits(o, MaxSize(rd));
    StructReadBack(ONE_FILE_DERIVE_EX, o.ToStruct(), rest, rd);
    AnyOrderReadBack(ONE_FILE_DERIVE_EX, order, o.ToStruct(), rest, rd);
  }
}
