/** Directory entries of the boot volumes, shared by the FAT16 and the FAT32 layout. */
module FatDirectory {
  import opened ByteCodec
  import Utf8

  const SECTOR_BYTES := 512
  const ENTRY_BYTES := 32
  const VOLUME := 0x08
  const DIRECTORY := 0x10
  const ARCHIVE := 0x20

  const X64_NAME: Bytes := Utf8.Ascii("BOOTX64 EFI")
  const AA64_NAME: Bytes := Utf8.Ascii("BOOTAA64EFI")
  const MANIFEST_NAME: Bytes := Utf8.Ascii("VOLUMES BMT")

  /** An EFI executable and an optional boot mount manifest. */
  datatype Files = Files(efi: Bytes, manifest: Option<Bytes>)

  predicate KnownBootName(name: Bytes) {
    name == X64_NAME || name == AA64_NAME
  }

  /** An 8.3 entry dated 1980-01-01. */
  function DirectoryEntry(name: Bytes, attributes: Byte, cluster: nat, size: nat): (b: Bytes)
    requires |name| == 11
    ensures |b| == ENTRY_BYTES
  {
    name + [attributes] + Zeros(4) + [0x21, 0, 0x21, 0] + ToLE(cluster / U16, 2) + [0, 0, 0x21, 0]
    + ToLE(cluster % U16, 2) + ToLE(size, 4)
  }

  function Dots(self: nat, parent: nat): (b: Bytes)
    ensures |b| == 64
  {
    DirectoryEntry(Utf8.Ascii(".          "), DIRECTORY, self, 0)
    + DirectoryEntry(Utf8.Ascii("..         "), DIRECTORY, parent, 0)
  }

  /** The first entries of the root directory. */
  function RootEntries(volume: Bytes, efiCluster: nat): (b: Bytes)
    requires |volume| == 11
    ensures |b| == 64
  {
    DirectoryEntry(volume, VOLUME, 0, 0) + DirectoryEntry(Utf8.Ascii("EFI        "), DIRECTORY, efiCluster, 0)
  }

  function EfiEntries(efiCluster: nat, parent: nat, bootCluster: nat): (b: Bytes)
    ensures |b| == 96
  {
    Dots(efiCluster, parent) + DirectoryEntry(Utf8.Ascii("BOOT       "), DIRECTORY, bootCluster, 0)
  }

  /** Where a file starts and how long it is. */
  datatype Extent = Extent(cluster: nat, size: nat)

  function FileEntry(name: Bytes, e: Extent): (b: Bytes)
    requires |name| == 11
    ensures |b| == ENTRY_BYTES
  {
    DirectoryEntry(name, ARCHIVE, e.cluster, e.size)
  }

  function ManifestEntry(manifest: Option<Extent>): (b: Bytes)
    ensures |b| == ENTRY_BYTES
  {
    if manifest.Some? then FileEntry(MANIFEST_NAME, manifest.value) else Zeros(ENTRY_BYTES)
  }

  /** The BOOT directory: dot entries, the executable and the optional manifest. */
  function BootDirectory(bootName: Bytes, self: nat, parent: nat, efi: Extent, manifest: Option<Extent>): (b: Bytes)
    requires |bootName| == 11
    ensures |b| == SECTOR_BYTES
  {
    Dots(self, parent) + FileEntry(bootName, efi) + ManifestEntry(manifest) + Zeros(384)
  }

  lemma EntryFields(name: Bytes, e: Extent)
    requires |name| == 11 && e.size < U32
    ensures var b := FileEntry(name, e);
            b[..11] == name && b[26..28] == ToLE(e.cluster % U16, 2) && Field(b, 28, 4) == e.size
  {
    var b := FileEntry(name, e);
    assert b[..11] == name && b[26..28] == ToLE(e.cluster % U16, 2);
    assert b[28..32] == ToLE(e.size, 4);
    Widths();
    ToLEThenLE(e.size, 4);
  }

  /** Names, sizes and presence read back from a BOOT directory. */
  lemma BootDirectoryReads(bootName: Bytes, self: nat, parent: nat, efi: Extent, manifest: Option<Extent>)
    requires |bootName| == 11 && efi.size < U32 && (manifest.Some? ==> manifest.value.size < U32)
    ensures var b := BootDirectory(bootName, self, parent, efi, manifest);
            && b[64..96] == FileEntry(bootName, efi) && Field(b, 92, 4) == efi.size
            && b[96..128] == ManifestEntry(manifest)
            && (b[96..107] == MANIFEST_NAME <==> manifest.Some?)
            && (manifest.Some? ==> Field(b, 124, 4) == manifest.value.size)
  {
    hide FileEntry, Dots, Utf8.Ascii;
    var b := BootDirectory(bootName, self, parent, efi, manifest);
    assert b[64..96] == FileEntry(bootName, efi) && b[96..128] == ManifestEntry(manifest);
    EntryFields(bootName, efi);
    SubSlice(b, 64, 96, 28, 32);
    SubSlice(b, 96, 128, 0, 11);
    SubSlice(b, 96, 128, 28, 32);
    ManifestNameIsText();
    if manifest.Some? {
      EntryFields(MANIFEST_NAME, manifest.value);
    } else {
      assert b[96..107][0] == 0;
    }
  }

  lemma ManifestNameIsText()
    ensures |MANIFEST_NAME| == 11 && MANIFEST_NAME[0] != 0
  {
  }

  /** A payload filled up with zeros to whole clusters. */
  function Padded(payload: Bytes, clusters: nat): (b: Bytes)
    requires |payload| <= clusters * SECTOR_BYTES
    ensures |b| == clusters * SECTOR_BYTES
  {
    payload + Zeros(clusters * SECTOR_BYTES - |payload|)
  }

  /** A run of clusters is a padded payload exactly when its tail is zero. */
  lemma PaddedByTail(run: Bytes, payload: Bytes, clusters: nat)
    requires |payload| <= clusters * SECTOR_BYTES == |run|
    ensures run == Padded(payload, clusters) <==> run[..|payload|] == payload && AllZero(run[|payload|..])
  {
    var p := Padded(payload, clusters);
    assert p[..|payload|] == payload && p[|payload|..] == Zeros(|run| - |payload|);
    if run[..|payload|] == payload && AllZero(run[|payload|..]) {
      AllZeroIsZeros(run[|payload|..]);
      assert run == run[..|payload|] + run[|payload|..];
    }
  }
}
