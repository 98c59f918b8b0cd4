# LPS22CH register-access layer in Dafny

This project models the platform-independent driver layer of the ST LPS22CH
barometric pressure sensor (`lps22ch_reg.c`). The accessors of that layer
share one design:

- most setters read the register that holds their field, assign the bitfield
  in the byte read, and write the byte back;
- four setters write without reading first: `pressure_ref_set`,
  `pressure_offset_set`, `int_threshold_set` and `pin_int_route_set`;
- each getter reads one or more registers and assembles or decodes its output;
- each further bus transaction runs only if every earlier one returned 0;
- every accessor returns the status of the last transaction it ran.

The model is made of pure functions over immutable data:

- `Bits`: register bytes (`bv8`), bitfields with their offset and width, and
  the field read and assignment the C bitfield structs perform.
- `Words`: the C integer types the accessors use, their conversions, and the
  multi-byte values. These are the signed 16-bit reference and offset
  pressures and the 24-bit pressure sample.
- `Transport`: the handle is either NULL or a live bus over a 256-byte
  register file. The live bus carries a script of the statuses its callbacks
  will return. `ReadReg` and `WriteReg` model `lps22ch_read_reg` and
  `lps22ch_write_reg`. `ShortCircuit` states the `if (ret == 0)` chaining
  every accessor uses.
- `Layout`: the register map. It records which field lives in which register,
  as the driver's code fixes it. Register addresses, bit positions and
  enumeration codes come from the register header and are parameters.
- `Fields`: the single-register accessors. These are the `uint8_t` flag
  setters and getters, the enumerated setters and getters with their decoding
  `switch`, the two-field setters (`int_on_threshold_set`,
  `i3c_interface_set`) and the whole-register accessors.
- `Composite`: the accessors that span registers or transactions:
  - the output data rate, split over CTRL_REG1 and CTRL_REG2;
  - the 16-bit reference and offset pressures;
  - the raw pressure and temperature samples, also from the FIFO;
  - the pressure-interrupt threshold;
  - the snapshot of all interrupt sources.
- `Properties`: what the accessors promise together:
  - set-then-get round trips;
  - a setter leaves every other field of the device as it was;
  - setting a field twice is the same as setting it once;
  - writing back what was read changes nothing;
  - a failed read stops a setter before it writes.

## Model

| member | source | states |
|---|---|---|
| Bits.Extract | lps22ch_reg.c:162 | Reading `reg.name` out of a register byte (`Extract`) gives a value no larger than the field's largest value. |
| Bits.ToByte | lps22ch_reg.c:943 | The conversion `(uint8_t)x` keeps x modulo 256, for negative x too. |
| Bits.OneField | lps22ch_reg.c:141 | The assignment `reg.name = val` on a register byte (`Insert`) makes the field read back `val` cut to its width and changes no bit outside the field. |
| Bits.AssignsInsert | lps22ch_reg.c:141 | A byte is the field assignment `Insert` of the byte read exactly when its field holds the value cut to the width and every other bit is unchanged. |
| Bits.InsertExtract | lps22ch_reg.c:141-162 | Assigning a field the value it already holds leaves the byte unchanged. |
| Bits.InsertTwice | lps22ch_reg.c:141 | Of two assignments to the same field, the second wins. |
| Transport.ReadReg | lps22ch_reg.c:48-62 | A NULL handle gives -1 with no bus transaction. Otherwise exactly one read runs and its status is returned. On success the buffer holds the addressed registers. |
| Transport.WriteReg | lps22ch_reg.c:74-88 | A NULL handle gives -1 with no bus transaction. Otherwise exactly one write runs and its status is returned. The registers change only when the write succeeds, and then they hold the data written. |
| Transport.LoadStore | lps22ch_reg.c:479-489 | A multi-byte write of at most 256 bytes followed by a read of the same length at the same address returns the bytes written. |
| Transport.StoreFrame | lps22ch_reg.c:479-489 | A multi-byte write changes no register outside the addresses it covers. |
| Transport.ChainSteps | lps22ch_reg.c:347-374 | For an accessor that chains its transactions on `ret == 0`: the i-th transaction performs the i-th planned step and returns the i-th status. Every transaction but the last returned 0. The accessor returns the last status, and stops early only on a failure. |
| Transport.ShortCircuitAllOk | lps22ch_reg.c:347-374 | When every transaction succeeds, a chained accessor runs all its planned transactions and returns 0. |
| Transport.ShortCircuitStops | lps22ch_reg.c:132-146 | The first failing transaction is the last one to run, and its status is the accessor's status. |
| Fields.Modify | lps22ch_reg.c:132-146 | Read-modify-write: the register is read. Only if the read returned 0 is the modified byte written back. On success that register is the only one that changed. After a failure no register changed. |
| Fields.FieldSet | lps22ch_reg.c:132-146 | The byte written back differs from the byte read only in the field, which now holds the value cut to the field's width. No write follows a failed read. |
| Fields.FieldGet | lps22ch_reg.c:156-165 | A single read of the field's register. On success the output is the field's bits. The output always fits the field, and the registers are unchanged. |
| Fields.FlagSet | lps22ch_reg.c:304-318 | A `uint8_t` setter (block_data_update_set and the other flag setters) assigns `(uint8_t)val` to the field. It changes only that register, and only on success. |
| Fields.FlagGet | lps22ch_reg.c:616-626 | A `uint8_t` getter (press_flag_get and the other flag getters) returns the field's value, which never exceeds the field's largest value. It changes no register. |
| Fields.Decode | lps22ch_reg.c:958-986 | The getter's `switch`: a listed code decodes to itself, any other pattern to the default case. The result is always a member of the enumeration. |
| Fields.EnumSet | lps22ch_reg.c:933-948 | An enumerated setter assigns `(uint8_t)val` to the field by read-modify-write. |
| Fields.EnumGet | lps22ch_reg.c:1708-1752 | An enumerated getter returns a member of the enumeration whatever the register holds. On success it is the decoded field. |
| Fields.PairSet | lps22ch_reg.c:1538-1564 | One read-modify-write assigns two disjoint fields of one register. All other bits keep their values. |
| Fields.IntOnThresholdSet | lps22ch_reg.c:1538-1564 | `pe` is assigned the value. `diff_en` is assigned 0 for NO_THRESHOLD and 1 otherwise, in one read-modify-write of INTERRUPT_CFG. |
| Fields.I3cInterfaceSet | lps22ch_reg.c:1068-1084 | `i3c_disable` is assigned the value and `int_en_i3c` its bitwise complement, in one read-modify-write of IF_CTRL. |
| Fields.TildeByte | lps22ch_reg.c:1079 | `(uint8_t)~val` is the bitwise complement of the value's low byte. |
| Fields.RegisterGet | lps22ch_reg.c:766-773 | The whole-register getters (device_id_get, status_reg_get, fifo_src_get, fifo_data_level_get, pin_int_route_get) read one register. On success they return its byte unchanged. |
| Fields.RegisterSet | lps22ch_reg.c:1489-1497 | `pin_int_route_set` writes the caller's byte to CTRL_REG3 without reading it first. On success that register holds the byte. |
| Words.ToInt16 | lps22ch_reg.c:502-512 | The conversion to `int16_t` keeps the 16-bit pattern. |
| Words.SplitInt16 | lps22ch_reg.c:479-489 | The two bytes written, low first, hold the value's 16-bit two's-complement pattern. |
| Words.JoinInt16 | lps22ch_reg.c:502-512 | The value assembled from the high and low byte has that 16-bit pattern. It is negative exactly when the high byte's top bit is set. |
| Words.PressureRaw | lps22ch_reg.c:668-680 | The three sample bytes accumulated into a `uint32_t` and multiplied by 256 never wrap. The result is the 24-bit sample shifted up one byte, with a low byte of zero. |
| Words.JoinSplit | lps22ch_reg.c:479-512 | Every `int16_t` survives the split into bytes followed by the reassembly. |
| Words.SplitJoin | lps22ch_reg.c:479-512 | Every pair of bytes survives the reassembly followed by the split. |
| Words.PressureRawBytes | lps22ch_reg.c:668-680 | The three sample bytes can be recovered from the raw pressure value. |
| Composite.OdrCode | lps22ch_reg.c:401-402 | The ODR code the getter examines, `(low_noise_en << 4) + (one_shot << 3) + odr`, is below 32. |
| Composite.OdrParts | lps22ch_reg.c:362-369 | The three parts `data_rate_set` takes from a code below 32, weighted as `data_rate_get` reassembles them, sum to the code. |
| Composite.DataRateAssigns | lps22ch_reg.c:362-369 | The two bytes `data_rate_set` writes (`DataRateBytes`): CTRL_REG1 has `odr` assigned bits 0-2 of the code and nothing else changed. CTRL_REG2 has `low_noise_en` assigned bit 4 and `one_shot` assigned bit 3, and nothing else changed. |
| Composite.WriteBoth | lps22ch_reg.c:1616-1634 | The second one-byte write runs only if the first returned 0. A failed second write leaves the first register already written. |
| Composite.DataRateSet | lps22ch_reg.c:347-374 | The four transactions run in order: read CTRL_REG1, read CTRL_REG2, write CTRL_REG1, write CTRL_REG2. Each runs only after every earlier one returned 0. On success both registers hold the bytes computed from the ones read. If only the last write fails, CTRL_REG1 is already updated. Otherwise a failure changes nothing. |
| Composite.DataRateTail | lps22ch_reg.c:355-373 | Once CTRL_REG1 has been read: read CTRL_REG2, then write both registers, with the same short-circuiting and the same failure cases. |
| Composite.DataRateGet | lps22ch_reg.c:384-467 | Three reads run in order: CTRL_REG1, CTRL_REG2 and CTRL_REG2 again. The output is assigned exactly when all three ran, and it is then a member of the ODR table. On success it is the decoded ODR code. |
| Composite.Int16Bytes | lps22ch_reg.c:484-485 | The buffer written, low byte first, holds the value's 16-bit pattern. |
| Composite.Int16Set | lps22ch_reg.c:524-534 | `pressure_ref_set` and `pressure_offset_set` do one two-byte write of the value's pattern. The registers change only on success. |
| Composite.Int16Get | lps22ch_reg.c:547-557 | `pressure_ref_get`, `pressure_offset_get`, `temperature_raw_get` and `fifo_temperature_raw_get` do one two-byte read. On success the output is the signed value of the two registers. |
| Composite.PressureRawGet | lps22ch_reg.c:710-723 | `pressure_raw_get` and `fifo_pressure_raw_get` do one three-byte read. The output's low byte is zero. On success the output is the sample in the three registers, shifted up one byte. |
| Composite.IntThresholdSet | lps22ch_reg.c:1616-1634 | THS_P_L is written, then THS_P_H only if the first write returned 0. On success both hold the computed bytes. A failed second write leaves THS_P_L written. |
| Composite.ThresholdBytes | lps22ch_reg.c:1621-1624 | The THS_P_H field holds the value's high byte cut to the field. The THS_P_L field holds the value's low byte cut to the field. The other bits of both uninitialised structs pass through. |
| Composite.LowByte | lps22ch_reg.c:1624 | Subtracting `ths_h * 256` does not change the low byte that the cast keeps. |
| Composite.IntThresholdGet | lps22ch_reg.c:1644-1662 | THS_P_H is read only if reading THS_P_L returned 0. The output is assigned exactly when both reads ran. On success it is the two fields assembled as high and low byte. |
| Composite.ThresholdValue | lps22ch_reg.c:1657-1658 | The assembled value's high byte is the THS_P_H field and its low byte is the THS_P_L field. |
| Composite.AllSourcesGet | lps22ch_reg.c:567-588 | INT_SOURCE, FIFO_STATUS2 and STATUS are read in order, each only after the earlier reads succeeded. A member is filled exactly when its read ran. On success the members hold the three registers. The registers are unchanged. |
| Layout.SameRegister | lps22ch_reg.c:1538-1564 | Two fields of one register never overlap, so a setter can assign both. |
| Layout.WellFormedOdr | lps22ch_reg.c:362-369 | A well-formed register map places the three ODR fields as the data-rate accessors need. |
| Properties.FieldSetFields | lps22ch_reg.c:132-146 | A field setter that returned 0 leaves its field holding the value cut to the field's width. Every other field of the device is as it was. |
| Properties.AssignKeepsField | lps22ch_reg.c:132-146 | Writing back a byte that differs from its register only in one field keeps every other field, in that register and in the others. |
| Properties.FlagRoundTrip | lps22ch_reg.c:304-337 | After a flag setter and its getter both return 0, the getter reports the value cut to the field's width. It reports exactly the value when the value fits. |
| Properties.EnumRoundTrip | lps22ch_reg.c:1684-1752 | After an enumerated setter and its getter both return 0, the getter reports the decoded, cut value. It reports exactly the value when the value is a member that fits the field. |
| Properties.FieldSetTwice | lps22ch_reg.c:132-146 | Setting a field twice to the same value leaves the registers as one setting did. |
| Properties.FieldGetSet | lps22ch_reg.c:156-165 | Writing back the value a getter just read leaves the registers unchanged. |
| Properties.FieldSetFailedRead | lps22ch_reg.c:137-143 | A setter whose read fails ran only that read, wrote nothing, and left the registers as they were. |
| Properties.RegisterRoundTrip | lps22ch_reg.c:1489-1515 | When every transaction succeeds, `pin_int_route_set` and then `pin_int_route_get` both return 0. When both return 0, the byte read back is the byte written. |
| Properties.ReadAssigned | lps22ch_reg.c:132-165 | A field assigned `(uint8_t)val` reads `val` cut to the field's width, and reads exactly `val` when it fits. |
| Properties.DecodeAssigned | lps22ch_reg.c:958-986 | A member that fits the field it was assigned to decodes back to itself. |
| Properties.ThresholdDiffEn | lps22ch_reg.c:1548-1555 | After `int_on_threshold_set` returned 0, `diff_en` is 0 exactly when the value is NO_THRESHOLD. |
| Properties.IntOnThresholdRoundTrip | lps22ch_reg.c:1538-1606 | `int_on_threshold_set` then `int_on_threshold_get`, both returning 0, report the value set when it is a member that fits `pe`. |
| Properties.I3cComplement | lps22ch_reg.c:1068-1084 | With one-bit fields, after `i3c_interface_set` returned 0, `int_en_i3c` is the complement of `i3c_disable`. |
| Properties.ComplementFields | lps22ch_reg.c:1078-1079 | Two one-bit fields assigned a value and its complement hold complementary bits. |
| Properties.I3cRoundTrip | lps22ch_reg.c:1068-1118 | `i3c_interface_set` then `i3c_interface_get`, both returning 0, report the value set when it is a member that fits. |
| Properties.I3cAssigned | lps22ch_reg.c:1068-1118 | The IF_CTRL byte that `i3c_interface_set` produced decodes back to the value set. |
| Properties.DataRateRoundTrip | lps22ch_reg.c:347-467 | `data_rate_set` then `data_rate_get`, both returning 0, report the value set when it is a member of the ODR table. |
| Properties.DataRateRegisters | lps22ch_reg.c:347-374 | The two registers `data_rate_set` leaves behind reassemble into the code it was given. |
| Properties.DataRateCode | lps22ch_reg.c:362-402 | The bytes `data_rate_set` computes, reassembled as `data_rate_get` does it, give back the code they were computed from. |
| Properties.Int16RoundTrip | lps22ch_reg.c:479-512 | `pressure_ref_set` then `pressure_ref_get`, both returning 0, report the value set. The offset pair behaves the same way. |
| Properties.StoreTwoBytes | lps22ch_reg.c:486 | A two-byte write puts its first byte at the address and its second at the next one. |
| Properties.Int16BytesJoin | lps22ch_reg.c:479-512 | The bytes the 16-bit setters write reassemble, as the getters do it, into the value written. |
| Properties.ThresholdRoundTrip | lps22ch_reg.c:1616-1662 | After `int_threshold_set` and `int_threshold_get` both return 0, the output is assigned. Its low and high bytes are the value's bytes cut to the two fields. It is exactly the value when the low field is a whole byte and the high byte fits its field. |
| Properties.ThresholdRegisters | lps22ch_reg.c:1616-1634 | THS_P_L and THS_P_H hold the two bytes `int_threshold_set` computed. |
| Properties.ThresholdLow | lps22ch_reg.c:1621-1658 | The low byte read back is the low byte set, cut to THS_P_L's field. |
| Properties.ThresholdHigh | lps22ch_reg.c:1621-1658 | The high byte read back is the high byte set, cut to THS_P_H's field. |
| Properties.ThresholdExact | lps22ch_reg.c:1616-1662 | With a whole-byte low field and a high byte that fits, the threshold reads back exactly. |
| Properties.ExactOfBytes | lps22ch_reg.c:1621-1658 | Fields assigned the two bytes of a value, neither of them cut, assemble back to that value. |

## Left out

- The floating-point conversions `lps22ch_from_lsb_to_hpa` and `lps22ch_from_lsb_to_celsius` (lines 101-109) are left out. Dafny has no `float` to model them with.
- What the sensor itself does is not modelled: sampling, reset, boot, FIFO filling, and bits the device clears by itself. The register file changes only through the driver's writes.
- The transport callbacks are a script of status codes, not code. Once the script runs out, every transaction returns 0. Concurrency and timing on the bus are not modelled.
- The register addresses, field placements and enumeration codes in `lps22ch_reg.h` are not part of this model. They are parameters, constrained only by what the driver's code relies on. The exception is the ODR fields, whose 3-, 1- and 1-bit widths the masks 0x07, 0x08 and 0x10 presuppose.
- Transport.WriteReg: a write that returns a non-zero status is assumed to change no register. The C callback makes no such promise; a bus error part-way through a multi-byte write may leave some bytes written. Every "registers unchanged after a failure" clause of the setters rests on this assumption. The clauses about a status of 0 do not.
- Transport.ReadReg: a failed read leaves the C buffer unspecified. The model hands back zeros, and no contract depends on them.
- Composite.IntThresholdSet: the bits of the uninitialised `ths_p_l` and `ths_p_h` structs outside the `ths` field are the parameters `junkL` and `junkH`.
- Composite.AllSourcesGet: follows the code, which skips the remaining reads once one fails. It does not attempt all three reads.
- Words.ToInt16: converting an out-of-range value to `int16_t` is implementation-defined in C. The model uses the two's-complement wrap.
- Fields.FlagSet: `PROPERTY_ENABLE` and `PROPERTY_DISABLE` are just the values 1 and 0. Any `uint8_t` is accepted and cut to the field.
- Properties.FlagRoundTrip: like the other round-trip lemmas, it is conditional on both accessors returning 0. That the accessors do return 0 when every transaction succeeds is stated once, by Transport.ShortCircuitAllOk together with each accessor's `ShortCircuit` contract.
- Properties.DataRateRoundTrip: requires CTRL_REG1 and CTRL_REG2 to have distinct addresses. It covers codes below 32 only, the largest the three fields can hold.
