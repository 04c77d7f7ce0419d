/** The classes of the configuration file format, one schema each, and what the binding
    promises for the two document roots. */
module XmlSchemas {
  import opened Octets
  import opened XmlText
  import opened XmlBinding

  function Int(name: string): Member { Attr(name, IntKind, None) }

  function Bool(name: string): Member { Attr(name, BoolKind, None) }

  function Text(name: string): Member { Attr(name, StringKind, None) }

  function Enum(name: string, names: seq<string>): Member { Attr(name, EnumKind(names), None) }

  function ListOf(tag: string, item: Schema): Schema { Schema(tag, true, [Collection(item)]) }

  // ---- Enumerations ----

  function BaudRates(): seq<string> {
    ["1200", "1800", "2400", "4800", "9600", "19200", "38400", "57600", "115200", "230400"]
  }

  function Parities(): seq<string> { ["PARITY_NONE", "PARITY_EVEN", "PARITY_ODD"] }

  function DataBits(): seq<string> { ["DATABITS_7", "DATABITS_8"] }

  function StopBits(): seq<string> { ["STOPBITS_0", "STOPBITS_1", "STOPBITS_2"] }

  function FlowControls(): seq<string> { ["FLOW_NONE", "FLOW_HARDWARE", "FLOW_XONXOFF"] }

  function LogLevels(): seq<string> {
    ["LOG_DEBUG", "LOG_COMM", "LOG_INTERPRET", "LOG_INFO", "LOG_WARNING", "LOG_ERROR", "LOG_EVENT"]
  }

  // ---- Physical layers and logging ----

  /** The four TCP classes; members of the base class come first. */
  function Tcp(tag: string, host: string): Schema {
    Schema(tag, false, [Text("Name"), Int("OpenRetryMS"), Text(host), Int("Port"),
      Attr("UseKeepAlives", BoolKind, Some(BoolVal(false))), Attr("SendBufferSize", IntKind, Some(IntVal(0))),
      Attr("RecvBufferSize", IntKind, Some(IntVal(0)))])
  }

  function Serial(): Schema {
    Schema("Serial", false, [Text("Name"), Int("OpenRetryMS"), Text("Device"), Enum("BaudRate", BaudRates()),
      Enum("Parity", Parities()), Enum("DBits", DataBits()), Enum("StopBits", StopBits()),
      Enum("FlowControl", FlowControls())])
  }

  function PhysicalLayerList(): Schema {
    Schema("PhysicalLayerList", true, [Collection(Tcp("TCPServer", "Endpoint")),
      Collection(Tcp("TCPClient", "Address")), Collection(Tcp("TCPv6Server", "Endpoint")),
      Collection(Tcp("TCPv6Client", "Address")), Collection(Serial())])
  }

  function Log(): Schema { Schema("Log", false, [Enum("Filter", LogLevels())]) }

  // ---- Points of a device ----

  function Binary(): Schema {
    Schema("Binary", false, [Int("Index"), Text("Name"), Int("ClassGroup")])
  }

  function Analog(): Schema {
    Schema("Analog", false, [Int("Index"), Text("Name"), Int("ClassGroup"), Int("Deadband")])
  }

  function Counter(): Schema {
    Schema("Counter", false, [Int("Index"), Int("ClassGroup"), Text("Name")])
  }

  /** Controls and setpoints. */
  function Output(tag: string): Schema {
    Schema(tag, false, [Int("Index"), Text("Name"), Text("ControlMode"), Int("SelectTimeoutMS")])
  }

  /** Statuses of controls and setpoints. */
  function Status(tag: string): Schema { Schema(tag, false, [Int("Index"), Text("Name")]) }

  function DeviceTemplate(): Schema {
    Schema("DeviceTemplate", false, [Text("TemplateName"), Child(ListOf("BinaryData", Binary())),
      Child(ListOf("AnalogData", Analog())), Child(ListOf("CounterData", Counter())),
      Child(ListOf("SetpointStatusData", Status("SetpointStatus"))),
      Child(ListOf("ControlStatusData", Status("ControlStatus"))),
      Child(ListOf("SetpointData", Output("Setpoint"))), Child(ListOf("ControlData", Output("Control")))])
  }

  // ---- The stack ----

  function LinkLayer(): Schema {
    Schema("LinkLayer", false, [Bool("IsMaster"), Int("LocalAddress"), Int("RemoteAddress"),
      Bool("UseConfirmations"), Int("AckTimeoutMS"), Int("NumRetries")])
  }

  function AppLayer(): Schema {
    Schema("AppLayer", false, [Int("TimeoutMS"), Int("MaxFragSize"), Int("NumRetries")])
  }

  function Stack(): Schema { Schema("Stack", false, [Child(LinkLayer()), Child(AppLayer())]) }

  function VtoPort(): Schema {
    Schema("VtoPort", false, [Text("PhysicalLayer"), Int("Index"), Bool("StartLocal"), Int("OpenRetry")])
  }

  // ---- The slave ----

  /** The four classes derived from GrpVar. */
  function GrpVar(tag: string): Schema { Schema(tag, false, [Int("Grp"), Int("Var")]) }

  function StaticRsp(): Schema {
    Schema("StaticRsp", false, [Child(GrpVar("BinaryGrpVar")), Child(GrpVar("AnalogGrpVar")),
      Child(GrpVar("CounterGrpVar")), Child(GrpVar("SetpointStatusGrpVar"))])
  }

  function EventRsp(): Schema {
    Schema("EventRsp", false, [Child(GrpVar("BinaryGrpVar")), Child(GrpVar("AnalogGrpVar")),
      Child(GrpVar("CounterGrpVar"))])
  }

  function TimeIINTask(): Schema { Schema("TimeIINTask", false, [Bool("DoTask"), Int("PeriodMS")]) }

  function UnsolDefaults(): Schema {
    Schema("UnsolDefaults", false, [Bool("DoClass1"), Bool("DoClass2"), Bool("DoClass3"), Int("PackDelayMS"),
      Int("RetryMS")])
  }

  function SlaveConfig(): Schema {
    Schema("SlaveConfig", false, [Int("MaxBinaryEvents"), Int("MaxAnalogEvents"), Int("MaxCounterEvents"),
      Child(StaticRsp()), Child(EventRsp()), Child(TimeIINTask()), Child(UnsolDefaults())])
  }

  function Slave(): Schema {
    Schema("Slave", false, [Child(Stack()), Child(SlaveConfig()), Child(ListOf("VtoPorts", VtoPort()))])
  }

  function SlaveTestSet(): Schema {
    Schema("SlaveTestSet", false, [Text("LogFile"), Text("PhysicalLayer"), Bool("Remote"), Int("RemotePort"),
      Bool("LinkCommandStatus"), Bool("StartOnline"), Child(Log()), Child(Slave()), Child(DeviceTemplate()),
      Child(PhysicalLayerList())])
  }

  // ---- The master ----

  function MasterSettings(): Schema {
    Schema("MasterSettings", false, [Bool("AllowTimeSync"), Int("TaskRetryMS"), Int("IntegrityPeriodMS"),
      Bool("UseNonStandardVtoTransferCode"), Attr("VtoWriterQueueSize", IntKind, Some(IntVal(0)))])
  }

  function ExceptionScan(): Schema {
    Schema("ExceptionScan", false, [Bool("Class1"), Bool("Class2"), Bool("Class3"), Int("PeriodMS")])
  }

  function Unsol(): Schema {
    Schema("Unsol", false, [Bool("DoTask"), Bool("Enable"), Bool("Class1"), Bool("Class2"), Bool("Class3")])
  }

  function Master(): Schema {
    Schema("Master", false, [Child(Stack()), Child(MasterSettings()), Child(ListOf("ScanList", ExceptionScan())),
      Child(Unsol()), Child(ListOf("VtoPorts", VtoPort()))])
  }

  function MasterTestSet(): Schema {
    Schema("MasterTestSet", false, [Text("PhysicalLayer"), Text("LogFile"), Child(Log()), Child(Master()),
      Child(PhysicalLayerList())])
  }

  // ---- Well-formedness ----

  function Label(m: Member): string { if m.Attr? then m.name else m.schema.tag }

  /** Names are distinct if a function sends each one to its own place. The places below are
      told by the length of a name and, where lengths are shared, by letters. */
  lemma GoodEnum(names: seq<string>, place: string -> int)
    requires forall i :: 0 <= i < |names| ==> place(names[i]) == i && '\0' !in names[i]
    ensures GoodKind(EnumKind(names))
  {
  }

  lemma GoodClass(sc: Schema, place: string -> int)
    requires forall i :: 0 <= i < |sc.members| ==> WellFormedMember(sc.members[i]) && place(Label(sc.members[i])) == i
    requires sc.wrapper ==> forall m <- sc.members :: m.Collection?
    ensures WellFormed(sc)
  {
    GoodMembers(sc.members);
  }

  lemma {:induction false} GoodMembers(ms: seq<Member>)
    requires forall i :: 0 <= i < |ms| ==> WellFormedMember(ms[i])
    ensures WellFormedAll(ms)
    decreases |ms|
  {
    if ms != [] { GoodMembers(ms[1..]); }
  }

  lemma GoodList(tag: string, item: Schema)
    requires WellFormed(item) && !item.wrapper
    ensures WellFormed(ListOf(tag, item))
  {
    GoodMembers([Collection(item)]);
  }

  lemma EnumsGood()
    ensures GoodKind(EnumKind(BaudRates()))
    ensures GoodKind(EnumKind(Parities()))
    ensures GoodKind(EnumKind(DataBits()))
    ensures GoodKind(EnumKind(StopBits()))
    ensures GoodKind(EnumKind(FlowControls()))
    ensures GoodKind(EnumKind(LogLevels()))
  {
    hide GoodKind;
    GoodEnum(BaudRates(), s => match |s|
      case 4 =>
        // 1200, 1800, 2400, 4800, 9600
        if s[0] == '1' then (if s[1] == '2' then 0 else 1) else if s[0] == '2' then 2 else if s[0] == '4' then 3 else 4
      case 5 => if s[0] == '1' then 5 else if s[0] == '3' then 6 else 7  // 19200, 38400, 57600
      case 6 => if s[0] == '1' then 8 else 9                             // 115200, 230400
      case _ => -1);
    GoodEnum(Parities(), s => match |s|
      case 10 => 2                             // PARITY_ODD
      case 11 => if s[7] == 'N' then 0 else 1  // PARITY_NONE, PARITY_EVEN
      case _ => -1);
    GoodEnum(DataBits(), s => match |s|
      case 10 => if s[9] == '7' then 0 else 1  // DATABITS_7, DATABITS_8
      case _ => -1);
    GoodEnum(StopBits(), s => match |s|
      case 10 => if s[9] == '0' then 0 else if s[9] == '1' then 1 else 2  // STOPBITS_0, STOPBITS_1, STOPBITS_2
      case _ => -1);
    GoodEnum(FlowControls(), s => match |s|
      case 9 => 0   // FLOW_NONE
      case 12 => 2  // FLOW_XONXOFF
      case 13 => 1  // FLOW_HARDWARE
      case _ => -1);
    GoodEnum(LogLevels(), s => match |s|
      case 8 => if s[4] == 'C' then 1 else 3                             // LOG_COMM, LOG_INFO
      case 9 => if s[5] == 'E' then 0 else if s[5] == 'R' then 5 else 6  // LOG_DEBUG, LOG_ERROR, LOG_EVENT
      case 11 => 4                                                       // LOG_WARNING
      case 13 => 2                                                       // LOG_INTERPRET
      case _ => -1);
  }

  lemma TcpGood(tag: string, host: string)
    requires host == "Address" || host == "Endpoint"
    ensures WellFormed(Tcp(tag, host))
  {
    hide WellFormed, WellFormedAll;
    GoodClass(Tcp(tag, host), s => match |s|
      case 4 => if s[0] == 'N' then 0 else 3   // Name, Port
      case 7 => 2                              // Address
      case 8 => 2                              // Endpoint
      case 11 => 1                             // OpenRetryMS
      case 13 => 4                             // UseKeepAlives
      case 14 => if s[0] == 'S' then 5 else 6  // SendBufferSize, RecvBufferSize
      case _ => -1);
  }

  lemma SerialGood()
    ensures WellFormed(Serial())
  {
    hide WellFormed, WellFormedAll, BaudRates, Parities, DataBits, StopBits, FlowControls, LogLevels;
    EnumsGood();
    GoodClass(Serial(), s => match |s|
      case 4 => 0                              // Name
      case 5 => 5                              // DBits
      case 6 => if s[0] == 'D' then 2 else 4   // Device, Parity
      case 8 => if s[0] == 'B' then 3 else 6   // BaudRate, StopBits
      case 11 => if s[0] == 'O' then 1 else 7  // OpenRetryMS, FlowControl
      case _ => -1);
  }

  lemma LogGood()
    ensures WellFormed(Log())
  {
    hide WellFormed, WellFormedAll, BaudRates, Parities, DataBits, StopBits, FlowControls, LogLevels;
    EnumsGood();
    GoodClass(Log(), s => match |s|
      case 6 => 0  // Filter
      case _ => -1);
  }

  lemma PhysicalLayerListGood()
    ensures WellFormed(PhysicalLayerList())
  {
    hide WellFormed, WellFormedAll;
    TcpGood("TCPServer", "Endpoint");
    TcpGood("TCPClient", "Address");
    TcpGood("TCPv6Server", "Endpoint");
    TcpGood("TCPv6Client", "Address");
    SerialGood();
    GoodClass(PhysicalLayerList(), s => match |s|
      case 6 => 4                              // Serial
      case 9 => if s[3] == 'S' then 0 else 1   // TCPServer, TCPClient
      case 11 => if s[5] == 'S' then 2 else 3  // TCPv6Server, TCPv6Client
      case _ => -1);
  }

  lemma PointsGood()
    ensures WellFormed(Binary())
    ensures WellFormed(Analog())
    ensures WellFormed(Counter())
  {
    hide WellFormed, WellFormedAll;
    GoodClass(Binary(), s => match |s|
      case 4 => 1   // Name
      case 5 => 0   // Index
      case 10 => 2  // ClassGroup
      case _ => -1);
    GoodClass(Analog(), s => match |s|
      case 4 => 1   // Name
      case 5 => 0   // Index
      case 8 => 3   // Deadband
      case 10 => 2  // ClassGroup
      case _ => -1);
    GoodClass(Counter(), s => match |s|
      case 4 => 2   // Name
      case 5 => 0   // Index
      case 10 => 1  // ClassGroup
      case _ => -1);
  }

  lemma OutputGood(tag: string)
    ensures WellFormed(Output(tag))
    ensures WellFormed(Status(tag))
  {
    hide WellFormed, WellFormedAll;
    GoodClass(Output(tag), s => match |s|
      case 4 => 1   // Name
      case 5 => 0   // Index
      case 11 => 2  // ControlMode
      case 15 => 3  // SelectTimeoutMS
      case _ => -1);
    GoodClass(Status(tag), s => match |s|
      case 4 => 1  // Name
      case 5 => 0  // Index
      case _ => -1);
  }

  lemma DeviceTemplateGood()
    ensures WellFormed(DeviceTemplate())
  {
    hide WellFormed, WellFormedAll;
    PointsGood();
    OutputGood("SetpointStatus");
    OutputGood("ControlStatus");
    OutputGood("Setpoint");
    OutputGood("Control");
    GoodList("BinaryData", Binary());
    GoodList("AnalogData", Analog());
    GoodList("CounterData", Counter());
    GoodList("SetpointStatusData", Status("SetpointStatus"));
    GoodList("ControlStatusData", Status("ControlStatus"));
    GoodList("SetpointData", Output("Setpoint"));
    GoodList("ControlData", Output("Control"));
    GoodClass(DeviceTemplate(), s => match |s|
      case 10 => if s[0] == 'B' then 1 else 2  // BinaryData, AnalogData
      case 11 => if s[2] == 'u' then 3 else 7  // CounterData, ControlData
      case 12 => if s[0] == 'T' then 0 else 6  // TemplateName, SetpointData
      case 17 => 5                             // ControlStatusData
      case 18 => 4                             // SetpointStatusData
      case _ => -1);
  }

  lemma StackGood()
    ensures WellFormed(Stack())
  {
    hide WellFormed, WellFormedAll;
    GoodClass(LinkLayer(), s => match |s|
      case 8 => 0                              // IsMaster
      case 10 => 5                             // NumRetries
      case 12 => if s[0] == 'L' then 1 else 4  // LocalAddress, AckTimeoutMS
      case 13 => 2                             // RemoteAddress
      case 16 => 3                             // UseConfirmations
      case _ => -1);
    GoodClass(AppLayer(), s => match |s|
      case 9 => 0   // TimeoutMS
      case 10 => 2  // NumRetries
      case 11 => 1  // MaxFragSize
      case _ => -1);
    GoodClass(Stack(), s => match |s|
      case 8 => 1  // AppLayer
      case 9 => 0  // LinkLayer
      case _ => -1);
  }

  lemma VtoPortsGood()
    ensures WellFormed(ListOf("VtoPorts", VtoPort()))
  {
    hide WellFormed, WellFormedAll;
    GoodClass(VtoPort(), s => match |s|
      case 5 => 1   // Index
      case 9 => 3   // OpenRetry
      case 10 => 2  // StartLocal
      case 13 => 0  // PhysicalLayer
      case _ => -1);
    GoodList("VtoPorts", VtoPort());
  }

  lemma GrpVarGood(tag: string)
    ensures WellFormed(GrpVar(tag))
  {
    hide WellFormed, WellFormedAll;
    GoodClass(GrpVar(tag), s => match |s|
      case 3 => if s[0] == 'G' then 0 else 1  // Grp, Var
      case _ => -1);
  }

  lemma ResponsesGood()
    ensures WellFormed(StaticRsp())
    ensures WellFormed(EventRsp())
  {
    hide WellFormed, WellFormedAll;
    GrpVarGood("BinaryGrpVar");
    GrpVarGood("AnalogGrpVar");
    GrpVarGood("CounterGrpVar");
    GrpVarGood("SetpointStatusGrpVar");
    GoodClass(StaticRsp(), s => match |s|
      case 12 => if s[0] == 'B' then 0 else 1  // BinaryGrpVar, AnalogGrpVar
      case 13 => 2                             // CounterGrpVar
      case 20 => 3                             // SetpointStatusGrpVar
      case _ => -1);
    GoodClass(EventRsp(), s => match |s|
      case 12 => if s[0] == 'B' then 0 else 1  // BinaryGrpVar, AnalogGrpVar
      case 13 => 2                             // CounterGrpVar
      case _ => -1);
  }

  lemma TasksGood()
    ensures WellFormed(TimeIINTask())
    ensures WellFormed(UnsolDefaults())
    ensures WellFormed(Unsol())
  {
    hide WellFormed, WellFormedAll;
    GoodClass(TimeIINTask(), s => match |s|
      case 6 => 0  // DoTask
      case 8 => 1  // PeriodMS
      case _ => -1);
    GoodClass(UnsolDefaults(), s => match |s|
      case 7 => 4                                                        // RetryMS
      case 8 => if s[7] == '1' then 0 else if s[7] == '2' then 1 else 2  // DoClass1, DoClass2, DoClass3
      case 11 => 3                                                       // PackDelayMS
      case _ => -1);
    GoodClass(Unsol(), s => match |s|
      case 6 =>
        // DoTask, Enable, Class1, Class2, Class3
        if s[5] == 'k' then 0 else if s[5] == 'e' then 1 else if s[5] == '1' then 2 else if s[5] == '2' then 3 else 4
      case _ => -1);
  }

  lemma SlaveGood()
    ensures WellFormed(Slave())
  {
    hide WellFormed, WellFormedAll;
    ResponsesGood();
    TasksGood();
    StackGood();
    VtoPortsGood();
    GoodClass(SlaveConfig(), s => match |s|
      case 8 => 4                              // EventRsp
      case 9 => 3                              // StaticRsp
      case 11 => 5                             // TimeIINTask
      case 13 => 6                             // UnsolDefaults
      case 15 => if s[3] == 'B' then 0 else 1  // MaxBinaryEvents, MaxAnalogEvents
      case 16 => 2                             // MaxCounterEvents
      case _ => -1);
    GoodClass(Slave(), s => match |s|
      case 5 => 0   // Stack
      case 8 => 2   // VtoPorts
      case 11 => 1  // SlaveConfig
      case _ => -1);
  }

  lemma MasterGood()
    ensures WellFormed(Master())
  {
    hide WellFormed, WellFormedAll;
    TasksGood();
    StackGood();
    VtoPortsGood();
    GoodClass(MasterSettings(), s => match |s|
      case 11 => 1  // TaskRetryMS
      case 13 => 0  // AllowTimeSync
      case 17 => 2  // IntegrityPeriodMS
      case 18 => 4  // VtoWriterQueueSize
      case 29 => 3  // UseNonStandardVtoTransferCode
      case _ => -1);
    GoodClass(ExceptionScan(), s => match |s|
      case 6 => if s[5] == '1' then 0 else if s[5] == '2' then 1 else 2  // Class1, Class2, Class3
      case 8 => 3                                                        // PeriodMS
      case _ => -1);
    GoodList("ScanList", ExceptionScan());
    GoodClass(Master(), s => match |s|
      case 5 => if s[0] == 'S' then 0 else 3  // Stack, Unsol
      case 8 => if s[0] == 'S' then 2 else 4  // ScanList, VtoPorts
      case 14 => 1                            // MasterSettings
      case _ => -1);
  }

  lemma TestSetsGood()
    ensures WellFormed(SlaveTestSet())
    ensures WellFormed(MasterTestSet())
  {
    hide WellFormed, WellFormedAll;
    LogGood();
    SlaveGood();
    MasterGood();
    DeviceTemplateGood();
    PhysicalLayerListGood();
    GoodClass(SlaveTestSet(), s => match |s|
      case 3 => 6                              // Log
      case 5 => 7                              // Slave
      case 6 => 2                              // Remote
      case 7 => 0                              // LogFile
      case 10 => 3                             // RemotePort
      case 11 => 5                             // StartOnline
      case 13 => 1                             // PhysicalLayer
      case 14 => 8                             // DeviceTemplate
      case 17 => if s[0] == 'L' then 4 else 9  // LinkCommandStatus, PhysicalLayerList
      case _ => -1);
    GoodClass(MasterTestSet(), s => match |s|
      case 3 => 2   // Log
      case 6 => 3   // Master
      case 7 => 1   // LogFile
      case 13 => 0  // PhysicalLayer
      case 17 => 4  // PhysicalLayerList
      case _ => -1);
  }

  // ---- The two document roots ----

  ghost predicate Root(sc: Schema) { sc == SlaveTestSet() || sc == MasterTestSet() }

  /** What an object looks like right after `new`. */
  function Blank(sc: Schema): (o: Object)
    ensures Typed(sc, o) && IsFresh(sc, o)
    decreases sc
  {
    Object(false, BlankAll(sc.members))
  }

  function BlankAll(ms: seq<Member>): (fs: seq<Value>)
    ensures TypedAll(ms, fs) && FreshAll(ms, fs)
    decreases ms
  {
    if ms == [] then [] else [BlankValue(ms[0])] + BlankAll(ms[1..])
  }

  function BlankValue(m: Member): (v: Value)
    ensures TypedValue(m, v) && FreshValue(m, v)
    decreases m
  {
    match m
    case Attr(_, IntKind, _) => PrimValue(IntVal(0))
    case Attr(_, BoolKind, _) => PrimValue(BoolVal(false))
    case Attr(_, StringKind, _) => PrimValue(StringVal(""))
    case Attr(_, EnumKind(_), _) => PrimValue(EnumVal(0))
    case Child(sc) => ObjectValue(Blank(sc))
    case Collection(_) => ListValue([])
  }

  /** Zeroed memory is one way `new` may behave. */
  lemma BlankMakes()
    ensures Makes(Blank)
  {
  }

  /** A master or slave configuration written with toXml(..., true, true) and read into a
      new object comes back with the same data everywhere exactly when no string in it
      holds a NUL; the write throws exactly when an enumeration is out of range. */
  lemma TestSetRoundTrip(root: Schema, o: Object, mk: Maker)
    requires Root(root) && Typed(root, o) && Makes(mk)
    ensures Save(root, o, true).Some? <==> EnumsValid(root, o)
    ensures EnumsValid(root, o) ==>
            var r := Load(root, First(Save(root, o, true).value), mk(root), mk);
            r.Some? && (SameData(root, o, r.value) <==> NulFree(root, o))
  {
    TestSetsGood();
    SaveSucceeds(root, o);
    if EnumsValid(root, o) { FullRoundTrip(root, o, mk(root), mk); }
  }

  lemma RootIsGood(root: Schema)
    requires Root(root)
    ensures WellFormed(root)
  {
    hide WellFormed, SlaveTestSet, MasterTestSet;
    TestSetsGood();
  }

  lemma MadeFresh(sc: Schema, mk: Maker)
    requires Makes(mk)
    ensures Typed(sc, mk(sc)) && IsFresh(sc, mk(sc))
  {
    hide Typed, IsFresh;
  }

  /** Any document the binding accepts as a configuration is written back and read again with
      all its valid parts kept, and written again to the same tree. */
  lemma TestSetSaveLoadSave(root: Schema, node: Xml, again: Object, mk: Maker)
    requires Root(root) && Makes(mk) && Load(root, Some(node), mk(root), mk).Some?
    requires Typed(root, again) && IsFresh(root, again)
    ensures var o := Load(root, Some(node), mk(root), mk).value;
            && Typed(root, o) && o.valid && Save(root, o, false).Some?
            && var first := Save(root, o, false).value;
               var r := Load(root, First(first), again, mk);
               && r.Some? && Survives(root, o, r.value)
               && Typed(root, r.value) && Save(root, r.value, false) == Some(first)
  {
    hide *;
    RootIsGood(root);
    MadeFresh(root, mk);
    LoadClean(root, Some(node), mk(root), mk);
    SaveLoadSave(root, Some(node), mk(root), again, mk);
  }
}
