/** Saving and loading a PAC configuration (`store_to_json`, `load_from_json` of
    tools/pacgen.py). JSON documents are values; object keys are named by constructors. */
module PacJson {

  datatype Option<T> = None | Some(value: T)

  // ---------------------------------------------------------------- hex(n) and int(s, 16)

  function DigitChar(d: nat): char
    requires d < 16
  {
    if d < 10 then '0' + d as char else 'a' + (d - 10) as char
  }

  function DigitValue(c: char): Option<nat> {
    if '0' <= c <= '9' then Some((c - '0') as nat)
    else if 'a' <= c <= 'f' then Some((c - 'a') as nat + 10)
    else if 'A' <= c <= 'F' then Some((c - 'A') as nat + 10)
    else None
  }

  function HexDigits(n: nat): (s: string)
    ensures s != []
  {
    if n < 16 then [DigitChar(n)] else HexDigits(n / 16) + [DigitChar(n % 16)]
  }

  /** Python's `hex`. */
  function HexText(n: int): string {
    if n < 0 then "-0x" + HexDigits(-n) else "0x" + HexDigits(n)
  }

  /** Digits, a single underscore allowed between two of them. */
  function DigitsValue(s: string): Option<nat>
    decreases |s|
  {
    if s == [] || DigitValue(s[|s| - 1]).None? then None
    else
      var d, front := DigitValue(s[|s| - 1]).value, s[..|s| - 1];
      if front == [] then Some(d)
      else
        match DigitsValue(if front[|front| - 1] == '_' then front[..|front| - 1] else front)
        case None => None
        case Some(v) => Some(16 * v + d)
  }

  /** Digits, perhaps behind a prefix, which an underscore may follow. */
  function Magnitude(s: string): Option<nat> {
    if |s| >= 2 && s[0] == '0' && (s[1] == 'x' || s[1] == 'X')
    then DigitsValue(if |s| >= 3 && s[2] == '_' then s[3..] else s[2..])
    else DigitsValue(s)
  }

  predicate Space(c: char) {
    c == ' ' || '\t' <= c <= '\r' || '\U{1C}' <= c <= '\U{1F}'
  }

  function Stripped(s: string): string
    decreases |s|
  {
    if s == [] then []
    else if Space(s[0]) then Stripped(s[1..])
    else if Space(s[|s| - 1]) then Stripped(s[..|s| - 1])
    else s
  }

  /** Python's `int(s, 16)` on ASCII text: blanks around, a sign, a prefix, digits. */
  function Int16(s: string): Option<int> {
    var t := Stripped(s);
    if t != [] && t[0] == '-' then
      match Magnitude(t[1..]) case Some(v) => Some(0 - v as int) case None => None
    else
      match Magnitude(if t != [] && t[0] == '+' then t[1..] else t) case Some(v) => Some(v) case None => None
  }

  lemma DigitRoundTrip(d: nat)
    requires d < 16
    ensures DigitValue(DigitChar(d)) == Some(d) && DigitChar(d) != '_' && !Space(DigitChar(d))
  {
  }

  /** What `hex` prints has no underscores or blanks at its ends. */
  lemma {:induction false} HexEnds(n: nat)
    ensures var s := HexDigits(n); s[0] != '_' && s[|s| - 1] != '_' && !Space(s[|s| - 1])
    decreases n
  {
    hide DigitChar, Space;
    DigitRoundTrip(n % 16);
    if n >= 16 {
      HexEnds(n / 16);
    }
  }

  lemma {:induction false} DigitsRoundTrip(n: nat)
    ensures DigitsValue(HexDigits(n)) == Some(n)
    decreases n
  {
    hide DigitValue, DigitChar, Space;
    var s := HexDigits(n);
    DigitRoundTrip(n % 16);
    if n < 16 {
      assert s[..|s| - 1] == [];
    } else {
      DigitsRoundTrip(n / 16);
      HexEnds(n / 16);
      assert s[..|s| - 1] == HexDigits(n / 16);
    }
  }

  /** Base-16 parsing inverts hex printing on every integer, negative ones included. */
  lemma HexRoundTrip(n: int)
    ensures Int16(HexText(n)) == Some(n)
  {
    hide DigitsValue, HexDigits;
    var m: nat := if n < 0 then -n else n;
    DigitsRoundTrip(m);
    HexEnds(m);
    var s, t := HexText(n), "0x" + HexDigits(m);
    assert s[|s| - 1] == HexDigits(m)[|HexDigits(m)| - 1];
    assert Stripped(s) == s;
    assert t[0] == '0' && t[1] == 'x' && t[2] == HexDigits(m)[0] && t[2..] == HexDigits(m);
    if n < 0 {
      assert s[1..] == t;
    }
  }

  // ---------------------------------------------------------------- documents

  datatype Key =
    | SzVersion | SzPrdName | SzPrdVersion | SzPrdAlias | DwMode | RebootByAt | DwFlashType | DwIsNvBackup
    | DwOmaDmProductFlag | DwIsOmaDm | DwIsPreload | NVItems | PacFiles
    | Name | ID | Use | Replace | Continue | Backup
    | CfgType | Type | SzFileID | Description | DwCanOmitFlag | DefaultCheck | ForceCheck | DwAddress | FixedSize
    | FilePath | SzFileName | RemotePath

  datatype Json =
    | Null | Bool(b: bool) | Number(n: int) | Float(x: real) | Text(s: string)
    | Object(fields: map<Key, Json>) | Array(items: seq<Json>)

  /** `f[key]`, whatever stands there; a missing key raises. */
  function Get(m: map<Key, Json>, k: Key): Option<Json> {
    if k in m then Some(m[k]) else None
  }

  /** `f[key]` where only text will do, and `int(f[key], 16)`. */
  function GetText(m: map<Key, Json>, k: Key): Option<string> {
    if k in m && m[k].Text? then Some(m[k].s) else None
  }

  function GetHex(m: map<Key, Json>, k: Key): Option<int> {
    if k in m && m[k].Text? then Int16(m[k].s) else None
  }

  // ---------------------------------------------------------------- configurations

  /** The tools never look into most of what they load and store; those fields hold any value. */
  datatype NvItem = NvItem(name: Json, id: int, use: Json, replace: Json, cont: Json, backup: Json)

  /** What the setters record whatever the kind of the file. */
  datatype Common = Common(fileId: Json, description: Json, canOmit: Json, defaultCheck: Json, forceCheck: Json)

  /** What `set_plain_file`, `set_empty_file`, `set_pack_file` and `set_xml_file` record; the
      fields they fix (flags, the pack file's address and name) follow from these. `Unset` is an
      entry on which no setter was called. */
  datatype FileCfg =
    | PlainFile(kind: Json, common: Common, address: int, fixedSize: int, filePath: Json, fileName: Json)
    | EmptyFile(kind: Json, common: Common, address: int, fixedSize: int)
    | PackFile(common: Common, localPath: string, remotePath: string)
    | XmlFile(xmlName: string)
    | Unset

  datatype Product = Product(version: Json, prdName: Json, prdVersion: Json, prdAlias: Json, mode: Json,
                             rebootByAt: Json, flashType: Json, isNvBackup: Json, omaDmProductFlag: Json, isOmaDm: Json,
                             isPreload: Json)

  datatype Config = Config(product: Product, nvitems: seq<NvItem>, files: seq<FileCfg>)

  // ---------------------------------------------------------------- NV items

  function StoreNv(nc: NvItem): Json {
    Object(map[Name := nc.name, ID := Text(HexText(nc.id)), Use := nc.use, Replace := nc.replace,
               Continue := nc.cont, Backup := nc.backup])
  }

  function LoadNv(j: Json): Option<NvItem> {
    if !j.Object? then None
    else
      var f := j.fields;
      match (Get(f, Name), GetHex(f, ID), Get(f, Use), Get(f, Replace), Get(f, Continue), Get(f, Backup))
      case (Some(name), Some(id), Some(use), Some(replace), Some(cont), Some(backup)) =>
        Some(NvItem(name, id, use, replace, cont, backup))
      case _ => None
  }

  lemma NvRoundTrip(nc: NvItem)
    ensures LoadNv(StoreNv(nc)) == Some(nc)
  {
    hide HexText, Int16;
    HexRoundTrip(nc.id);
  }

  // ---------------------------------------------------------------- files

  /** The entries every file kind has. */
  function StoreCommon(tag: string, kind: Json, c: Common): map<Key, Json> {
    map[CfgType := Text(tag), Type := kind, SzFileID := c.fileId, Description := c.description,
        DwCanOmitFlag := c.canOmit, DefaultCheck := c.defaultCheck, ForceCheck := c.forceCheck]
  }

  /** An XML entry is skipped, and one that was never set makes `store_to_json` raise. */
  predicate Stored(fc: FileCfg) {
    !fc.XmlFile? && !fc.Unset?
  }

  function StoreFile(fc: FileCfg): Json
    requires Stored(fc)
  {
    match fc
    case PlainFile(kind, c, addr, size, path, name) =>
      Object(StoreCommon("PLAIN_FILE", kind, c)
             [DwAddress := Text(HexText(addr))][FixedSize := Text(HexText(size))][FilePath := path][SzFileName := name])
    case EmptyFile(kind, c, addr, size) =>
      Object(StoreCommon("EMPTY_FILE", kind, c)[DwAddress := Text(HexText(addr))][FixedSize := Text(HexText(size))])
    case PackFile(c, path, remote) =>
      Object(StoreCommon("PACK_FILE", Text("CODE"), c)[FilePath := Text(path)][RemotePath := Text(remote)])
  }

  function LoadCommon(f: map<Key, Json>): Option<Common> {
    match (Get(f, SzFileID), Get(f, Description), Get(f, DwCanOmitFlag), Get(f, DefaultCheck), Get(f, ForceCheck))
    case (Some(id), Some(desc), Some(omit), Some(check), Some(force)) => Some(Common(id, desc, omit, check, force))
    case _ => None
  }

  function LoadPlain(f: map<Key, Json>): Option<FileCfg> {
    match (LoadCommon(f), Get(f, Type), GetHex(f, DwAddress), GetHex(f, FixedSize), Get(f, FilePath),
           Get(f, SzFileName))
    case (Some(c), Some(kind), Some(addr), Some(size), Some(path), Some(name)) =>
      Some(PlainFile(kind, c, addr, size, path, name))
    case _ => None
  }

  function LoadEmpty(f: map<Key, Json>): Option<FileCfg> {
    match (LoadCommon(f), Get(f, Type), GetHex(f, DwAddress), GetHex(f, FixedSize))
    case (Some(c), Some(kind), Some(addr), Some(size)) => Some(EmptyFile(kind, c, addr, size))
    case _ => None
  }

  /** The paths of a pack file are normalised as text at once. */
  function LoadPack(f: map<Key, Json>): Option<FileCfg> {
    match (LoadCommon(f), GetText(f, FilePath), GetText(f, RemotePath))
    case (Some(c), Some(path), Some(remote)) => Some(PackFile(c, path, remote))
    case _ => None
  }

  /** An entry, loaded through the setter its `cfgType` names; any other value names none. */
  function LoadFile(j: Json): Option<FileCfg> {
    if !j.Object? || CfgType !in j.fields then None
    else
      var f := j.fields;
      if f[CfgType] == Text("PLAIN_FILE") then LoadPlain(f)
      else if f[CfgType] == Text("EMPTY_FILE") then LoadEmpty(f)
      else if f[CfgType] == Text("PACK_FILE") then LoadPack(f)
      else Some(Unset)
  }

  /** A lookup sees the common entries through the later ones. */
  lemma CommonEntries(m: map<Key, Json>, tag: string, kind: Json, c: Common)
    requires forall k :: k in StoreCommon(tag, kind, c) ==> k in m && m[k] == StoreCommon(tag, kind, c)[k]
    ensures Get(m, CfgType) == Some(Text(tag)) && Get(m, Type) == Some(kind) && LoadCommon(m) == Some(c)
  {
    var s := StoreCommon(tag, kind, c);
    assert CfgType in s && Type in s && SzFileID in s && Description in s;
    assert DwCanOmitFlag in s && DefaultCheck in s && ForceCheck in s;
  }

  lemma PlainRoundTrip(fc: FileCfg)
    requires fc.PlainFile?
    ensures LoadFile(StoreFile(fc)) == Some(fc)
  {
    hide HexText, Int16, LoadCommon;
    HexRoundTrip(fc.address);
    HexRoundTrip(fc.fixedSize);
    CommonEntries(StoreFile(fc).fields, "PLAIN_FILE", fc.kind, fc.common);
  }

  lemma EmptyRoundTrip(fc: FileCfg)
    requires fc.EmptyFile?
    ensures LoadFile(StoreFile(fc)) == Some(fc)
  {
    hide HexText, Int16, LoadCommon;
    TagsDiffer();
    HexRoundTrip(fc.address);
    HexRoundTrip(fc.fixedSize);
    CommonEntries(StoreFile(fc).fields, "EMPTY_FILE", fc.kind, fc.common);
  }

  lemma PackRoundTrip(fc: FileCfg)
    requires fc.PackFile?
    ensures LoadFile(StoreFile(fc)) == Some(fc)
  {
    hide HexText, Int16, LoadCommon;
    TagsDiffer();
    CommonEntries(StoreFile(fc).fields, "PACK_FILE", Text("CODE"), fc.common);
  }

  lemma FileRoundTrip(fc: FileCfg)
    requires Stored(fc)
    ensures LoadFile(StoreFile(fc)) == Some(fc)
  {
    hide StoreFile, LoadFile;
    match fc
    case PlainFile(_, _, _, _, _, _) => PlainRoundTrip(fc);
    case EmptyFile(_, _, _, _) => EmptyRoundTrip(fc);
    case PackFile(_, _, _) => PackRoundTrip(fc);
  }

  lemma TagsDiffer()
    ensures "PLAIN_FILE" != "EMPTY_FILE" && "PLAIN_FILE" != "PACK_FILE" && "EMPTY_FILE" != "PACK_FILE"
  {
    assert "PLAIN_FILE"[0] != "EMPTY_FILE"[0];
    assert |"PLAIN_FILE"| != |"PACK_FILE"| && |"EMPTY_FILE"| != |"PACK_FILE"|;
  }

  // ---------------------------------------------------------------- whole configurations

  function StoreNvs(ncs: seq<NvItem>): (js: seq<Json>)
    ensures |js| == |ncs| && forall i :: 0 <= i < |js| ==> js[i] == StoreNv(ncs[i])
  {
    seq(|ncs|, i requires 0 <= i < |ncs| => StoreNv(ncs[i]))
  }

  /** Every entry was set. */
  predicate AllSet(fcs: seq<FileCfg>) {
    forall i :: 0 <= i < |fcs| ==> !fcs[i].Unset?
  }

  predicate AllStored(fcs: seq<FileCfg>) {
    forall i :: 0 <= i < |fcs| ==> Stored(fcs[i])
  }

  /** The XML entry is generated and not saved. */
  function WithoutXml(fcs: seq<FileCfg>): (r: seq<FileCfg>)
    ensures AllSet(fcs) ==> AllStored(r)
  {
    if fcs == [] then []
    else WithoutXml(fcs[..|fcs| - 1]) + if fcs[|fcs| - 1].XmlFile? then [] else [fcs[|fcs| - 1]]
  }

  function StoreFiles(fcs: seq<FileCfg>): (js: seq<Json>)
    requires AllStored(fcs)
    ensures |js| == |fcs| && forall i :: 0 <= i < |js| ==> js[i] == StoreFile(fcs[i])
  {
    seq(|fcs|, i requires 0 <= i < |fcs| => StoreFile(fcs[i]))
  }

  function StoreProduct(p: Product): map<Key, Json> {
    map[SzVersion := p.version, SzPrdName := p.prdName, SzPrdVersion := p.prdVersion, SzPrdAlias := p.prdAlias,
        DwMode := p.mode, RebootByAt := p.rebootByAt, DwFlashType := p.flashType, DwIsNvBackup := p.isNvBackup,
        DwOmaDmProductFlag := p.omaDmProductFlag, DwIsOmaDm := p.isOmaDm, DwIsPreload := p.isPreload]
  }

  /** The document `store_to_json` writes. */
  function Store(c: Config): map<Key, Json>
    requires AllSet(c.files)
  {
    StoreProduct(c.product)[NVItems := Array(StoreNvs(c.nvitems))][PacFiles := Array(StoreFiles(WithoutXml(c.files)))]
  }

  function LoadProduct(m: map<Key, Json>): Option<Product> {
    match (Get(m, SzVersion), Get(m, SzPrdName), Get(m, SzPrdVersion), Get(m, SzPrdAlias))
    case (Some(version), Some(name), Some(prdVersion), Some(alias)) =>
      (match (Get(m, DwMode), Get(m, RebootByAt), Get(m, DwFlashType), Get(m, DwIsNvBackup),
              Get(m, DwOmaDmProductFlag), Get(m, DwIsOmaDm), Get(m, DwIsPreload))
       case (Some(mode), Some(reboot), Some(flash), Some(nvb), Some(flag), Some(oma), Some(preload)) =>
         Some(Product(version, name, prdVersion, alias, mode, reboot, flash, nvb, flag, oma, preload))
       case _ => None)
    case _ => None
  }

  function LoadNvs(js: seq<Json>): Option<seq<NvItem>> {
    if js == [] then Some([])
    else
      match (LoadNvs(js[..|js| - 1]), LoadNv(js[|js| - 1]))
      case (Some(rest), Some(nc)) => Some(rest + [nc])
      case _ => None
  }

  function LoadFiles(js: seq<Json>): Option<seq<FileCfg>> {
    if js == [] then Some([])
    else
      match (LoadFiles(js[..|js| - 1]), LoadFile(js[|js| - 1]))
      case (Some(rest), Some(fc)) => Some(rest + [fc])
      case _ => None
  }

  /** What `for f in cfg.get(key, [])` visits. Going through a text or an object visits strings,
      which have no entries, so only empty ones get by; other values cannot be gone through. */
  function GetArray(m: map<Key, Json>, k: Key): Option<seq<Json>> {
    if k !in m then Some([])
    else
      match m[k]
      case Array(items) => Some(items)
      case Text(s) => if s == [] then Some([]) else None
      case Object(fields) => if fields == map[] then Some([]) else None
      case _ => None
  }

  /** What `load_from_json` makes of a document, appended to the lists of `c`. */
  function Load(c: Config, m: map<Key, Json>): Option<Config> {
    match (LoadProduct(m), GetArray(m, NVItems), GetArray(m, PacFiles))
    case (Some(p), Some(nvs), Some(fs)) =>
      (match (LoadNvs(nvs), LoadFiles(fs))
       case (Some(ncs), Some(fcs)) => Some(Config(p, c.nvitems + ncs, c.files + fcs))
       case _ => None)
    case _ => None
  }

  lemma {:induction false} NvsRoundTrip(ncs: seq<NvItem>)
    ensures LoadNvs(StoreNvs(ncs)) == Some(ncs)
    decreases |ncs|
  {
    hide StoreNv, LoadNv;
    if ncs != [] {
      var n := |ncs| - 1;
      NvsRoundTrip(ncs[..n]);
      NvRoundTrip(ncs[n]);
      assert StoreNvs(ncs)[..n] == StoreNvs(ncs[..n]);
      assert ncs == ncs[..n] + [ncs[n]];
    }
  }

  lemma {:induction false} FilesRoundTrip(fcs: seq<FileCfg>)
    requires AllStored(fcs)
    ensures LoadFiles(StoreFiles(fcs)) == Some(fcs)
    decreases |fcs|
  {
    hide StoreFile, LoadFile;
    if fcs != [] {
      var n := |fcs| - 1;
      FilesRoundTrip(fcs[..n]);
      FileRoundTrip(fcs[n]);
      assert StoreFiles(fcs)[..n] == StoreFiles(fcs[..n]);
      assert fcs == fcs[..n] + [fcs[n]];
    }
  }

  lemma ProductRoundTrip(p: Product, nvs: Json, fs: Json)
    ensures LoadProduct(StoreProduct(p)[NVItems := nvs][PacFiles := fs]) == Some(p)
  {
  }

  /** Loading what was stored, into a fresh configuration, restores it but for its XML entries:
      all three file kinds, every integer address, size and id. Into any other configuration
      it appends. */
  lemma LoadAfterStore(c: Config, into: Config)
    requires AllSet(c.files)
    ensures Load(into, Store(c)) == Some(Config(c.product, into.nvitems + c.nvitems, into.files + WithoutXml(c.files)))
  {
    hide LoadProduct, StoreProduct, LoadNvs, LoadFiles, StoreNvs, StoreFiles;
    ProductRoundTrip(c.product, Array(StoreNvs(c.nvitems)), Array(StoreFiles(WithoutXml(c.files))));
    NvsRoundTrip(c.nvitems);
    FilesRoundTrip(WithoutXml(c.files));
  }

  // ---------------------------------------------------------------- the program

  class PacConfig {
    var product: Product
    var nvitems: seq<NvItem>
    var files: seq<FileCfg>

    ghost function View(): Config
      reads this
    {
      Config(product, nvitems, files)
    }

    constructor (product: Product)
      ensures View() == Config(product, [], [])
    {
      this.product := product;
      nvitems, files := [], [];
    }

    /** Nothing is written when an entry was never set. */
    method StoreToJson() returns (r: Option<map<Key, Json>>)
      ensures r == if AllSet(files) then Some(Store(View())) else None
    {
      hide StoreNv, StoreFile, StoreProduct;
      var cfg := StoreProduct(product);
      var items: seq<Json> := [];
      for i := 0 to |nvitems|
        invariant items == StoreNvs(nvitems[..i])
      {
        items := items + [StoreNv(nvitems[i])];
      }
      assert nvitems[..|nvitems|] == nvitems;
      cfg := cfg[NVItems := Array(items)];
      var pacFiles: seq<Json> := [];
      for i := 0 to |files|
        invariant AllSet(files[..i]) && pacFiles == StoreFiles(WithoutXml(files[..i]))
      {
        assert files[..i + 1][..i] == files[..i];
        if files[i].Unset? {
          return None;
        }
        if !files[i].XmlFile? {
          pacFiles := pacFiles + [StoreFile(files[i])];
        }
      }
      assert files[..|files|] == files;
      return Some(cfg[PacFiles := Array(pacFiles)]);
    }

    /** `ok` is false where a key is missing, hex text or a path is no such text, or a list cannot be
        gone through; every other value is taken as it stands. */
    method LoadFromJson(cfg: map<Key, Json>) returns (ok: bool)
      modifies this
      ensures ok <==> Load(old(View()), cfg).Some?
      ensures ok ==> View() == Load(old(View()), cfg).value
    {
      hide LoadNv, LoadFile, LoadProduct;
      match LoadProduct(cfg)
      case None => return false;
      case Some(p) =>
        product := p;
        match (GetArray(cfg, NVItems), GetArray(cfg, PacFiles))
        case (Some(nvs), Some(fs)) =>
          var done := LoadNvItems(nvs);
          if !done {
            return false;
          }
          done := LoadPacFiles(fs);
          return done;
        case _ => return false;
    }

    method LoadNvItems(nvs: seq<Json>) returns (ok: bool)
      modifies this`nvitems
      ensures ok <==> LoadNvs(nvs).Some?
      ensures ok ==> nvitems == old(nvitems) + LoadNvs(nvs).value
    {
      hide LoadNv;
      for i := 0 to |nvs|
        invariant LoadNvs(nvs[..i]).Some? && nvitems == old(nvitems) + LoadNvs(nvs[..i]).value
      {
        assert nvs[..i + 1][..i] == nvs[..i];
        match LoadNv(nvs[i])
        case None =>
          LoadNvsStops(nvs, i + 1);
          return false;
        case Some(nc) => nvitems := nvitems + [nc];
      }
      assert nvs[..|nvs|] == nvs;
      return true;
    }

    method LoadPacFiles(fs: seq<Json>) returns (ok: bool)
      modifies this`files
      ensures ok <==> LoadFiles(fs).Some?
      ensures ok ==> files == old(files) + LoadFiles(fs).value
    {
      hide LoadFile;
      for i := 0 to |fs|
        invariant LoadFiles(fs[..i]).Some? && files == old(files) + LoadFiles(fs[..i]).value
      {
        assert fs[..i + 1][..i] == fs[..i];
        match LoadFile(fs[i])
        case None =>
          LoadFilesStops(fs, i + 1);
          return false;
        case Some(fc) => files := files + [fc];
      }
      assert fs[..|fs|] == fs;
      return true;
    }
  }

  lemma {:induction false} LoadNvsStops(js: seq<Json>, k: nat)
    requires k <= |js| && LoadNvs(js[..k]).None?
    ensures LoadNvs(js).None?
    decreases |js| - k
  {
    hide LoadNv;
    if k < |js| {
      assert js[..k + 1][..k] == js[..k];
      LoadNvsStops(js, k + 1);
    } else {
      assert js[..k] == js;
    }
  }

  lemma {:induction false} LoadFilesStops(js: seq<Json>, k: nat)
    requires k <= |js| && LoadFiles(js[..k]).None?
    ensures LoadFiles(js).None?
    decreases |js| - k
  {
    hide LoadFile;
    if k < |js| {
      assert js[..k + 1][..k] == js[..k];
      LoadFilesStops(js, k + 1);
    } else {
      assert js[..k] == js;
    }
  }

  // ---------------------------------------------------------------- the document itself

  predicate LowerHex(c: char) {
    '0' <= c <= '9' || 'a' <= c <= 'f'
  }

  /** `hex` prints lower-case digits without leading zeros; with the round trip this fixes its text. */
  lemma {:induction false} HexForm(n: nat)
    ensures var s := HexDigits(n);
            && (forall i :: 0 <= i < |s| ==> LowerHex(s[i])) && (n > 0 ==> s[0] != '0') && (n == 0 ==> s == "0")
    decreases n
  {
    hide DigitChar, LowerHex;
    DigitForm(n % 16);
    DigitForm(0);
    if n >= 16 {
      HexForm(n / 16);
    }
  }

  lemma DigitForm(d: nat)
    requires d < 16
    ensures LowerHex(DigitChar(d)) && (d > 0 ==> DigitChar(d) != '0') && DigitChar(0) == '0'
  {
  }

  lemma HexTextForm(n: int)
    ensures n < 0 ==> |HexText(n)| > 3 && HexText(n)[..3] == "-0x"
    ensures n >= 0 ==> |HexText(n)| > 2 && HexText(n)[..2] == "0x"
    ensures HexText(255) == "0xff" && HexText(-16) == "-0x10"
  {
    assert n >= 0 ==> HexText(n)[..2] == "0x";
    assert n < 0 ==> HexText(n)[..3] == "-0x";
    assert HexDigits(15) == "f" && HexDigits(255) == HexDigits(15) + "f";
    assert HexDigits(1) == "1" && HexDigits(16) == HexDigits(1) + "0";
    assert HexText(255) == "0x" + "ff";
    assert HexText(-16) == "-0x" + "10";
  }

  /** Digits of either case are read. */
  lemma DigitsOfEitherCase(d: nat)
    requires d < 16
    ensures d < 10 ==> DigitValue('0' + d as char) == Some(d)
    ensures d >= 10 ==> DigitValue('a' + (d - 10) as char) == Some(d) && DigitValue('A' + (d - 10) as char) == Some(d)
  {
  }

  /** What a saved NV item holds under each key. */
  lemma StoredNv(nc: NvItem)
    ensures var f := StoreNv(nc);
            && f.Object? && f.fields.Keys == {Name, ID, Use, Replace, Continue, Backup}
            && f.fields[Name] == nc.name && f.fields[ID] == Text(HexText(nc.id)) && f.fields[Use] == nc.use
            && f.fields[Replace] == nc.replace && f.fields[Continue] == nc.cont && f.fields[Backup] == nc.backup
  {
    hide HexText;
  }

  const COMMON_KEYS: set<Key> := {CfgType, Type, SzFileID, Description, DwCanOmitFlag, DefaultCheck, ForceCheck}

  /** The keys and values a saved file of any kind has. */
  predicate HasCommon(f: map<Key, Json>, c: Common) {
    && COMMON_KEYS <= f.Keys
    && f[SzFileID] == c.fileId && f[Description] == c.description && f[DwCanOmitFlag] == c.canOmit
    && f[DefaultCheck] == c.defaultCheck && f[ForceCheck] == c.forceCheck
  }

  /** What a saved file of each kind holds under each key. */
  lemma StoredPlain(fc: FileCfg)
    requires fc.PlainFile?
    ensures var j := StoreFile(fc);
            && j.Object? && HasCommon(j.fields, fc.common)
            && var f := j.fields;
            && f.Keys == COMMON_KEYS + {DwAddress, FixedSize, FilePath, SzFileName}
            && f[CfgType] == Text("PLAIN_FILE") && f[Type] == fc.kind && f[DwAddress] == Text(HexText(fc.address))
            && f[FixedSize] == Text(HexText(fc.fixedSize)) && f[FilePath] == fc.filePath && f[SzFileName] == fc.fileName
  {
    hide HexText;
  }

  lemma StoredEmpty(fc: FileCfg)
    requires fc.EmptyFile?
    ensures var j := StoreFile(fc);
            && j.Object? && HasCommon(j.fields, fc.common)
            && var f := j.fields;
            && f.Keys == COMMON_KEYS + {DwAddress, FixedSize}
            && f[CfgType] == Text("EMPTY_FILE") && f[Type] == fc.kind && f[DwAddress] == Text(HexText(fc.address))
            && f[FixedSize] == Text(HexText(fc.fixedSize))
  {
    hide HexText;
  }

  lemma StoredPack(fc: FileCfg)
    requires fc.PackFile?
    ensures var j := StoreFile(fc);
            && j.Object? && HasCommon(j.fields, fc.common)
            && var f := j.fields;
            && f.Keys == COMMON_KEYS + {FilePath, RemotePath}
            && f[CfgType] == Text("PACK_FILE") && f[Type] == Text("CODE") && f[FilePath] == Text(fc.localPath)
            && f[RemotePath] == Text(fc.remotePath)
  {
  }

  /** What a saved configuration holds under each key. */
  lemma StoredConfig(c: Config)
    requires AllSet(c.files)
    ensures var f, p := Store(c), c.product;
            && f.Keys == {SzVersion, SzPrdName, SzPrdVersion, SzPrdAlias, DwMode, RebootByAt, DwFlashType, DwIsNvBackup,
                          DwOmaDmProductFlag, DwIsOmaDm, DwIsPreload, NVItems, PacFiles}
            && f[SzVersion] == p.version && f[SzPrdName] == p.prdName && f[SzPrdVersion] == p.prdVersion
            && f[SzPrdAlias] == p.prdAlias && f[DwMode] == p.mode && f[RebootByAt] == p.rebootByAt
            && f[DwFlashType] == p.flashType && f[DwIsNvBackup] == p.isNvBackup
            && f[DwOmaDmProductFlag] == p.omaDmProductFlag && f[DwIsOmaDm] == p.isOmaDm && f[DwIsPreload] == p.isPreload
            && f[NVItems] == Array(StoreNvs(c.nvitems)) && f[PacFiles] == Array(StoreFiles(WithoutXml(c.files)))
  {
    hide StoreNvs, StoreFiles, WithoutXml;
  }

  /** A document without the two lists loads as one with empty ones. */
  lemma ListsMayBeMissing(p: Product, into: Config)
    ensures Load(into, StoreProduct(p)) == Some(Config(p, into.nvitems, into.files))
  {
    hide LoadProduct;
    ProductAlone(p);
    assert LoadNvs([]) == Some([]) && LoadFiles([]) == Some([]);
    assert into.nvitems + [] == into.nvitems && into.files + [] == into.files;
  }

  lemma ProductAlone(p: Product)
    ensures LoadProduct(StoreProduct(p)) == Some(p)
  {
  }

  // ---------------------------------------------------------------- what loads

  /** The blanks `int` strips. */
  lemma SpacesAre(c: char)
    ensures Space(c) <==> c as int in {9, 10, 11, 12, 13, 28, 29, 30, 31, 32}
  {
  }

  /** Hex text with blanks, a sign, a prefix and underscores, and text that is none. */
  lemma ParsedTexts()
    ensures Int16(" \t0x_f\n") == Some(15) && Int16("+A") == Some(10) && Int16("-0Xb") == Some(-11)
    ensures Int16("1_0") == Some(16) && Int16("1__0") == None && Int16("_1") == None && Int16("1_") == None
    ensures Int16("") == None && Int16("0x") == None && Int16("g") == None && Int16("- 1") == None
  {
    StrippedText();
    GroupedDigits();
    DoubledUnderscore();
    OuterUnderscores();
    SignedTexts();
  }

  lemma StrippedText()
    ensures Int16(" \t0x_f\n") == Some(15)
  {
    assert " \t0x_f\n"[1..] == "\t0x_f\n" && "\t0x_f\n"[1..] == "0x_f\n" && "0x_f\n"[..4] == "0x_f";
    assert "0x_f"[3..] == "f" && "f"[..0] == "";
  }

  lemma GroupedDigits()
    ensures Int16("1_0") == Some(16)
  {
    assert "1_0"[..2] == "1_" && "1_"[..1] == "1" && "1"[..0] == "";
  }

  lemma DoubledUnderscore()
    ensures Int16("1__0") == None
  {
    assert "1__0"[..3] == "1__" && "1__"[..2] == "1_";
  }

  lemma OuterUnderscores()
    ensures Int16("_1") == None && Int16("1_") == None
  {
    assert "_1"[..1] == ['_'] && "_1"[..1][..0] == [];
  }

  lemma SignedTexts()
    ensures Int16("+A") == Some(10) && Int16("-0Xb") == Some(-11)
    ensures Int16("") == None && Int16("0x") == None && Int16("g") == None && Int16("- 1") == None
  {
    assert "+A"[1..] == "A" && "A"[..0] == "" && "-0Xb"[1..] == "0Xb" && "0Xb"[2..] == "b" && "b"[..0] == "";
    assert "0x"[2..] == "" && "- 1"[1..] == " 1" && " 1"[..1] == " ";
  }

  /** An item loads exactly when it is an object with all six keys and its ID is hex text. */
  lemma NvLoadsIff(j: Json)
    ensures LoadNv(j).Some? <==>
            && j.Object? && {Name, ID, Use, Replace, Continue, Backup} <= j.fields.Keys
            && j.fields[ID].Text? && Int16(j.fields[ID].s).Some?
  {
    hide Int16;
    if j.Object? {
      assert {Name, ID, Use, Replace, Continue, Backup} <= j.fields.Keys <==>
             Name in j.fields && ID in j.fields && Use in j.fields && Replace in j.fields && Continue in j.fields
             && Backup in j.fields;
    }
  }

  /** `k` holds hex text. */
  predicate HexAt(f: map<Key, Json>, k: Key) {
    k in f && f[k].Text? && Int16(f[k].s).Some?
  }

  /** A file loads exactly when it has a `cfgType` and what the setter named by it needs. */
  lemma FileLoadsIff(j: Json)
    requires j.Object? && CfgType in j.fields
    ensures var f := j.fields;
            var common := {SzFileID, Description, DwCanOmitFlag, DefaultCheck, ForceCheck} <= f.Keys;
            && (f[CfgType] == Text("PLAIN_FILE") ==>
                  (LoadFile(j).Some? <==> common && {Type, FilePath, SzFileName} <= f.Keys
                                          && HexAt(f, DwAddress) && HexAt(f, FixedSize)))
            && (f[CfgType] == Text("EMPTY_FILE") ==>
                  (LoadFile(j).Some? <==> common && Type in f && HexAt(f, DwAddress) && HexAt(f, FixedSize)))
            && (f[CfgType] == Text("PACK_FILE") ==>
                  (LoadFile(j).Some? <==> common && FilePath in f && f[FilePath].Text?
                                          && RemotePath in f && f[RemotePath].Text?))
            && (f[CfgType] !in {Text("PLAIN_FILE"), Text("EMPTY_FILE"), Text("PACK_FILE")} ==>
                  LoadFile(j) == Some(Unset))
  {
    hide Int16;
    TagsDiffer();
    var f := j.fields;
    assert {SzFileID, Description, DwCanOmitFlag, DefaultCheck, ForceCheck} <= f.Keys <==>
           SzFileID in f && Description in f && DwCanOmitFlag in f && DefaultCheck in f && ForceCheck in f;
    assert {Type, FilePath, SzFileName} <= f.Keys <==> Type in f && FilePath in f && SzFileName in f;
  }

  /** The settings of the product load exactly when none of their keys is missing. */
  lemma ProductLoadsIff(m: map<Key, Json>)
    ensures LoadProduct(m).Some? <==>
            {SzVersion, SzPrdName, SzPrdVersion, SzPrdAlias, DwMode, RebootByAt, DwFlashType, DwIsNvBackup,
             DwOmaDmProductFlag, DwIsOmaDm, DwIsPreload} <= m.Keys
  {
    assert {SzVersion, SzPrdName, SzPrdVersion, SzPrdAlias, DwMode, RebootByAt, DwFlashType, DwIsNvBackup,
            DwOmaDmProductFlag, DwIsOmaDm, DwIsPreload} <= m.Keys <==>
           SzVersion in m && SzPrdName in m && SzPrdVersion in m && SzPrdAlias in m && DwMode in m && RebootByAt in m
           && DwFlashType in m && DwIsNvBackup in m && DwOmaDmProductFlag in m && DwIsOmaDm in m && DwIsPreload in m;
  }

  /** What a list may be: missing, an array, or an empty text or object. */
  lemma ListForms(m: map<Key, Json>, k: Key)
    ensures k !in m ==> GetArray(m, k) == Some([])
    ensures k in m && m[k].Array? ==> GetArray(m, k) == Some(m[k].items)
    ensures k in m && (m[k] == Text("") || m[k] == Object(map[])) ==> GetArray(m, k) == Some([])
    ensures k in m && !m[k].Array? && m[k] != Text("") && m[k] != Object(map[]) ==> GetArray(m, k) == None
  {
  }
}
