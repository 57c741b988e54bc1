/**
 The request info byte of src/server/fawkes_proto.h: method in bits 7-4, protocol in
 bits 3-2, validity in bits 1-0.
 */
module InfoByte {

  function ProtoCode(proto: string): bv8 {
    if proto == "HTTP/1.0" then 1
    else if proto == "HTTP/1.1" then 2
    else if proto == "HTTP/2.0" then 3
    else 0
  }

  function MethodCode(name: string): bv8 {
    if name == "GET" then 1
    else if name == "HEAD" then 2
    else if name == "POST" then 3
    else if name == "PUT" then 4
    else if name == "DELETE" then 5
    else if name == "CONNECT" then 6
    else if name == "OPTIONS" then 7
    else if name == "TRACE" then 8
    else 0
  }

  function EncodeProto(proto: string, info: bv8): bv8 {
    (info & 243) | ((ProtoCode(proto) << 2) & !243)
  }

  function EncodeMethod(name: string, info: bv8): bv8 {
    (info & 15) | ((MethodCode(name) << 4) & !15)
  }

  function EncodeReqmts(info: bv8): bv8 {
    var x: bv8 := if (info >> 2) & 3 != 0 && info >> 4 != 0 && info >> 4 < 9 then 1 else 0;
    (info & 252) | (x & !252)
  }

  function DecodeProto(info: bv8): int {
    if (info >> 2) & 3 == 1 then 1
    else if (info >> 2) & 3 == 2 then 2
    else if (info >> 2) & 3 == 3 then 3
    else -1
  }

  function DecodeMethod(info: bv8): int {
    if info >> 4 == 1 then 1
    else if info >> 4 == 2 then 2
    else if info >> 4 == 3 then 3
    else if info >> 4 == 4 then 4
    else if info >> 4 == 5 then 5
    else if info >> 4 == 6 then 6
    else if info >> 4 == 7 then 7
    else if info >> 4 == 8 then 8
    else -1
  }

  function DecodeReqmts(info: bv8): int {
    if info & 3 == 1 then 1 else -1
  }

  /** The byte that parseRequest builds. */
  function Encode(proto: string, name: string, info: bv8): bv8 {
    EncodeReqmts(EncodeMethod(name, EncodeProto(proto, info)))
  }

  /* ---------- What the byte means ---------- */

  const PROTOCOLS := ["HTTP/1.0", "HTTP/1.1", "HTTP/2.0"]
  const METHODS := ["GET", "HEAD", "POST", "PUT", "DELETE", "CONNECT", "OPTIONS", "TRACE"]

  /** The position of a name in a table, counted from 1, or -1. */
  function Position(table: seq<string>, name: string): (p: int)
    ensures p == -1 <==> name !in table
    ensures p != -1 ==> 1 <= p <= |table| && table[p - 1] == name
  {
    if table == [] then -1
    else if table[|table| - 1] == name then |table|
    else Position(table[..|table| - 1], name)
  }

  lemma {:induction false} ProtoTable(proto: string)
    ensures Position(PROTOCOLS, proto) ==
            (match ProtoCode(proto) case 1 => 1 case 2 => 2 case 3 => 3 case _ => -1)
    ensures ProtoCode(proto) < 4
  {
  }

  lemma {:induction false} MethodTable(name: string)
    ensures Position(METHODS, name) ==
            (match MethodCode(name)
             case 1 => 1 case 2 => 2 case 3 => 3 case 4 => 4
             case 5 => 5 case 6 => 6 case 7 => 7 case 8 => 8 case _ => -1)
    ensures MethodCode(name) < 9
  {
  }

  /** From any starting byte, the encoded byte decodes to the table positions of the two names. */
  lemma {:induction false} EncodedByteDecodes(proto: string, name: string, info: bv8)
    ensures DecodeProto(Encode(proto, name, info)) == Position(PROTOCOLS, proto)
    ensures DecodeMethod(Encode(proto, name, info)) == Position(METHODS, name)
    ensures DecodeReqmts(Encode(proto, name, info)) == if proto in PROTOCOLS && name in METHODS then 1 else -1
  {
    ProtoTable(proto);
    MethodTable(name);
    var p, m := ProtoCode(proto), MethodCode(name);
    var b := (((info & 243) | ((p << 2) & !243)) & 15) | ((m << 4) & !15);
    assert b >> 4 == m && (b >> 2) & 3 == p;
    assert EncodeReqmts(b) >> 4 == m && (EncodeReqmts(b) >> 2) & 3 == p;
  }

  /** The starting byte is forgotten. */
  lemma {:induction false} EncodeForgetsStart(proto: string, name: string, info: bv8, info': bv8)
    ensures Encode(proto, name, info) == Encode(proto, name, info')
  {
  }

  /** Each encoder writes only its own field. */
  lemma {:induction false} EncodersKeepOtherFields(proto: string, name: string, info: bv8)
    ensures EncodeProto(proto, info) & 243 == info & 243
    ensures EncodeMethod(name, info) & 15 == info & 15
    ensures EncodeReqmts(info) & 252 == info & 252
  {
  }

  lemma {:induction false} ProtoAndMethodCommute(proto: string, name: string, info: bv8)
    ensures EncodeMethod(name, EncodeProto(proto, info)) == EncodeProto(proto, EncodeMethod(name, info))
  {
  }

  /** A validated byte is accepted exactly when its two fields decode. */
  lemma {:induction false} ReqmtsIff(info: bv8)
    ensures DecodeReqmts(EncodeReqmts(info)) == if DecodeProto(info) != -1 && DecodeMethod(info) != -1 then 1 else -1
    ensures EncodeReqmts(info) & 3 == if DecodeProto(info) != -1 && DecodeMethod(info) != -1 then 1 else 0
  {
  }

  /** Every byte, read as 16 * m + 4 * p + v: method, protocol and validity, or -1. */
  lemma {:induction false} DecodedFields(m: bv8, p: bv8, v: bv8)
    requires m < 16 && p < 4 && v < 4
    ensures DecodeMethod(16 * m + 4 * p + v) == if 1 <= m <= 8 then m as int else -1
    ensures DecodeProto(16 * m + 4 * p + v) == if 1 <= p <= 3 then p as int else -1
    ensures DecodeReqmts(16 * m + 4 * p + v) == if v == 1 then 1 else -1
  {
  }

  /** The position of a supported name, 0 for others. */
  function CodeOf(table: seq<string>, name: string): (c: nat)
    ensures c <= |table|
  {
    if name in table then Position(table, name) else 0
  }

  /** The whole byte is determined by the two names. */
  lemma {:induction false} EncodedByteIs(proto: string, name: string, info: bv8)
    ensures Encode(proto, name, info) as int ==
            16 * CodeOf(METHODS, name) + 4 * CodeOf(PROTOCOLS, proto) + if proto in PROTOCOLS && name in METHODS then 1 else 0
  {
    ProtoTable(proto);
    MethodTable(name);
  }
}
