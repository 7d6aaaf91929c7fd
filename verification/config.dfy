/** What the tables describe, and which descriptions are accepted. */
module Config {
  import opened Results
  import opened Bytes

  datatype PsciConduit = Hvc | Smc

  datatype UsbConfig = UsbConfig(mmioBase: u64, mmioLen: u32, spi: u32)

  datatype TpmConfig = TpmConfig(crbBase: u64, crbLen: u32, controlArea: u64)

  datatype PciConfig = PciConfig(mmioBase: u64, mmioLen: u64, intxSpis: seq<u32>)

  datatype GicConfig = GicConfig(distBase: u64, redistBase: u64, redistLen: u32)

  datatype TimerConfig = TimerConfig(ppis: seq<u32>, alwaysOn: bool)

  datatype EcamConfig = EcamConfig(base: u64, startBus: byte, endBus: byte)

  datatype UartConfig = UartConfig(base: u64, len: u32, spi: u32)

  datatype AcpiConfigRaw = AcpiConfig(
    conduit: PsciConduit,
    mpidrs: seq<u64>,
    gic: GicConfig,
    timer: TimerConfig,
    ecam: EcamConfig,
    pci: PciConfig,
    uart: UartConfig,
    tpm: Option<TpmConfig>,
    usb: Option<UsbConfig>)

  /** The source's `[u32; 4]` fields have four elements. */
  type AcpiConfig = c: AcpiConfigRaw | |c.timer.ppis| == 4 && |c.pci.intxSpis| == 4
    witness AcpiConfig(Hvc, [], GicConfig(0, 0, 0), TimerConfig([0, 0, 0, 0], false), EcamConfig(0, 0, 0),
                       PciConfig(0, 0, [0, 0, 0, 0]), UartConfig(0, 0, 0), None, None)

  const MAX_CPUS: nat := 512
  const SPI_LAST: nat := 1019

  /** Unchecked `u32` additions, which wrap. */
  function PpiGsiv(ppi: u32): (r: u32) {
    (16 + ppi) % U32
  }

  function SpiGsiv(spi: u32): (r: u32) {
    (32 + spi) % U32
  }

  /** `mpidr & !MPIDR_AFFINITY == 0`: bits 63:40 and 31:24 are clear. */
  predicate IsAffinity(mpidr: u64) {
    mpidr < 0x100_0000_0000 && (mpidr / 0x100_0000) % 0x100 == 0
  }

  function Buses(ecam: EcamConfig): (r: nat)
    requires ecam.startBus <= ecam.endBus
  {
    ecam.endBus - ecam.startBus + 1
  }

  predicate ValidTpm(tpm: TpmConfig) {
    && 0 < tpm.crbLen
    && tpm.crbBase + tpm.crbLen <= U32
    && tpm.crbBase <= tpm.controlArea < tpm.crbBase + tpm.crbLen
  }

  predicate ValidUsb(usb: UsbConfig) {
    && 0 < usb.mmioLen
    && usb.mmioBase + usb.mmioLen <= U32
    && SpiGsiv(usb.spi) <= SPI_LAST
  }

  /** `AcpiConfig::validate` accepts. */
  predicate Valid(c: AcpiConfig) {
    && 1 <= |c.mpidrs| <= MAX_CPUS
    && (forall i :: 0 <= i < |c.mpidrs| ==> IsAffinity(c.mpidrs[i]) && c.mpidrs[i] !in c.mpidrs[..i])
    && (forall i :: 0 <= i < 4 ==> c.timer.ppis[i] <= 15)
    && SpiGsiv(c.uart.spi) <= SPI_LAST
    && c.ecam.startBus <= c.ecam.endBus
    && c.gic.redistLen != 0 && c.uart.len != 0
    && c.pci.mmioLen != 0 && c.pci.mmioBase + c.pci.mmioLen <= U32
    && !(c.pci.mmioBase < c.ecam.base + Buses(c.ecam) * 0x10_0000 && c.ecam.base < c.pci.mmioBase + c.pci.mmioLen)
    && (forall i :: 0 <= i < 4 ==> SpiGsiv(c.pci.intxSpis[i]) <= SPI_LAST)
    && (c.tpm.Some? ==> ValidTpm(c.tpm.value))
    && (c.usb.Some? ==> ValidUsb(c.usb.value))
  }
}
