/**
 The device's register map. Which register each named bitfield lives in, and
 which registers each accessor touches, is fixed by the driver's code; the
 numeric addresses, the bit positions and widths of the fields, and the
 numeric codes of the enumerations come from the register header and are
 parameters here (a `Layout`), constrained only by what the driver's code
 relies on.
 */
module Layout {
  import opened Bits

  /** The registers the driver addresses by name. */
  datatype Reg =
    | InterruptCfg | ThsPL | ThsPH | IfCtrl | WhoAmI
    | CtrlReg1 | CtrlReg2 | CtrlReg3 | FifoCtrl | FifoWtm
    | RefPL | RpdsL | IntSource | FifoStatus1 | FifoStatus2 | Status
    | PressOutXl | TempOutL | FifoDataOutPressXl | FifoDataOutTempL

  /** The named bitfields of the register structs the accessors use. */
  datatype Name =
    | ResetAz | Autozero | ResetArp | Autorefp | Pe | Lir | DiffEn
    | Bdu | Odr | LpfpCfg | Sim
    | Swreset | IfAddInc | Boot | OneShot | LowNoiseEn | PpOd | IntHL
    | IntFOvr | IntFWtm | IntFFull
    | I2cDisable | I3cDisable | IntEnI3c | SdoPuEn | SdaPuEn
    | FMode | StopOnWtm | Wtm
    | PDa | TDa | FifoFullIa | FifoOvrIa | FifoWtmIa
    | ThsL | ThsH

  /** The register each field belongs to: the struct type the accessor reads it through. */
  function Home(n: Name): Reg {
    match n
    case ResetAz | Autozero | ResetArp | Autorefp | Pe | Lir | DiffEn => InterruptCfg
    case Bdu | Odr | LpfpCfg | Sim => CtrlReg1
    case Swreset | IfAddInc | Boot | OneShot | LowNoiseEn | PpOd | IntHL => CtrlReg2
    case IntFOvr | IntFWtm | IntFFull => CtrlReg3
    case I2cDisable | I3cDisable | IntEnI3c | SdoPuEn | SdaPuEn => IfCtrl
    case FMode | StopOnWtm => FifoCtrl
    case Wtm => FifoWtm
    case PDa | TDa => Status
    case FifoFullIa | FifoOvrIa | FifoWtmIa => FifoStatus2
    case ThsL => ThsPL
    case ThsH => ThsPH
  }

  /** The enumerated types of the accessors' `val` parameters. */
  datatype EnumName =
    | OdrEnum | LpfpEnum | I2cEnum | I3cEnum | PullUpEnum | SimEnum
    | LirEnum | PpOdEnum | IntHLEnum | PeEnum | FModeEnum

  /** How many cases the getter's `switch` lists for each enumeration. */
  function Cases(e: EnumName): nat {
    match e
    case OdrEnum => 14
    case LpfpEnum => 3
    case PeEnum => 4
    case FModeEnum => 7
    case _ => 2
  }

  /**
   A closed enumeration: the codes the getter's `switch` recognises, in the
   order it lists them. The first is also the `default:` the getter falls back
   to (POWER_DOWN, LPF_ODR_DIV_2, I2C_ENABLE, ..., BYPASS_MODE).
   */
  datatype Enum = Enum(first: int, rest: seq<int>)

  function Members(e: Enum): seq<int> {
    [e.first] + e.rest
  }

  /** The enumeration a field's accessor pair takes and returns, if any. */
  function EnumOf(n: Name): (r: Option<EnumName>) {
    match n
    case Odr => Some(OdrEnum)
    case LpfpCfg => Some(LpfpEnum)
    case I2cDisable => Some(I2cEnum)
    case I3cDisable => Some(I3cEnum)
    case SdoPuEn | SdaPuEn => Some(PullUpEnum)
    case Sim => Some(SimEnum)
    case Lir => Some(LirEnum)
    case PpOd => Some(PpOdEnum)
    case IntHL => Some(IntHLEnum)
    case Pe => Some(PeEnum)
    case FMode => Some(FModeEnum)
    case _ => None
  }

  datatype Option<T> = None | Some(value: T)

  /** The register map: addresses, field placements and enumeration codes. */
  datatype Layout = Layout(addr: Reg -> byte, bits: Name -> BitRange, enums: EnumName -> Enum)

  /**
   What the driver's code relies on: every field fits in its byte, fields of
   one register do not overlap, distinct registers have distinct addresses,
   every enumeration lists as many codes as its getter's `switch`, and the
   output-data-rate code splits into a 3-bit `odr` and the 1-bit `one_shot`
   and `low_noise_en` flags, as its masks 0x07, 0x08 and 0x10 presuppose.
   */
  predicate WellFormed(L: Layout) {
    && (forall n :: Valid(L.bits(n)))
    && (forall n, m | n != m && Home(n) == Home(m) :: Valid(L.bits(n)) && Valid(L.bits(m)) && Disjoint(L.bits(n), L.bits(m)))
    && (forall r, q | r != q :: L.addr(r) != L.addr(q))
    && (forall e :: |Members(L.enums(e))| == Cases(e))
    && L.bits(Odr).width == 3
    && L.bits(OneShot).width == 1
    && L.bits(LowNoiseEn).width == 1
  }

  /** Fields `n` and `m` fit their byte and do not overlap, as a setter assigning both needs. */
  predicate Pair(L: Layout, n: Name, m: Name) {
    Valid(L.bits(n)) && Valid(L.bits(m)) && Disjoint(L.bits(n), L.bits(m))
  }

  /** The three fields that hold the ODR code, as `data_rate_set` and `data_rate_get` use them. */
  predicate OdrFields(L: Layout) {
    && Valid(L.bits(Odr)) && Pair(L, LowNoiseEn, OneShot)
    && L.bits(Odr).width == 3 && L.bits(OneShot).width == 1 && L.bits(LowNoiseEn).width == 1
  }

  /** Two fields of one register, as a well-formed layout places them. */
  lemma SameRegister(L: Layout, n: Name, m: Name)
    requires WellFormed(L) && n != m && Home(n) == Home(m)
    ensures Pair(L, n, m)
  {}

  /** A well-formed layout places the ODR fields as the data-rate accessors need. */
  lemma WellFormedOdr(L: Layout)
    requires WellFormed(L)
    ensures OdrFields(L)
  {
    SameRegister(L, LowNoiseEn, OneShot);
  }
}
