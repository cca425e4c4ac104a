/**
  `DiskTransfersPerSecondStatistic`: the disk-transfer statistic the server
  reports. It picks, once and for all when it is built, the backend of the
  platform it runs on: the Windows performance counter
  `PhysicalDisk / Disk Transfers/sec / _Total`, or the Linux per-second rate
  of the `/proc/diskstats` total. Every reading then comes from that backend.

  Neither backend's reading is computed here: the counter is the operating
  system's and the per-second rate is another component's, so a reading of
  each is passed in.
*/
module PerformanceStatistics {

  /** Which statistic the facade forwards to. */
  datatype Backend = WindowsCounter | LinuxPerSecond

  /** The backend the constructor chooses for a platform. */
  function BackendFor(isWindows: bool): (b: Backend)
    ensures b == WindowsCounter <==> isWindows
    ensures b == LinuxPerSecond <==> !isWindows
  {
    if isWindows then WindowsCounter else LinuxPerSecond
  }

  class DiskTransfersPerSecondStatistic {
    /** Chosen in the constructor and never reassigned. */
    const backend: Backend

    constructor (isWindows: bool)
      ensures backend == BackendFor(isWindows)
    {
      if isWindows {
        backend := WindowsCounter;
      } else {
        backend := LinuxPerSecond;
      }
    }

    /**
      The next reading: that of the chosen backend, the Windows counter on
      Windows and the Linux per-second statistic elsewhere. `reading` gives
      what each backend would report; only the chosen one is consulted.
      Reading changes nothing about the facade.
     */
    method GetNextValue(reading: Backend -> real) returns (value: real)
      ensures value == reading(backend)
    {
      value := reading(backend);
    }
  }
}
