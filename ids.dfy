/**
 * The element IDs of the `Id` enum in src/formats/webm/webm.rs: each Matroska /
 * WebM element ID in its raw encoded form, length-marker bits included, as the
 * `#[repr(u32)]` discriminant the traversal compares decoded IDs against.
 */
module Ids {
  import opened Common

  const Ebml: uint32 := 0x1A45DFA3
  const EbmlVersion: uint32 := 0x4286
  const EbmlReadVersion: uint32 := 0x42F7
  const EbmlMaxIdLength: uint32 := 0x42F2
  const EbmlMaxSizeLength: uint32 := 0x42F3
  const DocType: uint32 := 0x4282
  const DocTypeVersion: uint32 := 0x4287
  const DocTypeReadVersion: uint32 := 0x4285
  const Void: uint32 := 0xEC
  const Segment: uint32 := 0x18538067
  const SeekHead: uint32 := 0x114D9B74
  const Seek: uint32 := 0x4DBB
  const SeekId: uint32 := 0x53AB
  const SeekPosition: uint32 := 0x53AC
  const Info: uint32 := 0x1549A966
  const TimecodeScale: uint32 := 0x2AD7B1
  const Duration: uint32 := 0x4489
  const DateUtc: uint32 := 0x4461
  const Title: uint32 := 0x7BA9
  const MuxingApp: uint32 := 0x4D80
  const WritingApp: uint32 := 0x5741
  const Cluster: uint32 := 0x1F43B675
  const Timecode: uint32 := 0xE7
  const PrevSize: uint32 := 0xAB
  const SimpleBlock: uint32 := 0xA3
  const BlockGroup: uint32 := 0xA0
  const Block: uint32 := 0xA1
  const BlockVirtual: uint32 := 0xA2
  const BlockAdditions: uint32 := 0x75A1
  const BlockMore: uint32 := 0xA6
  const BlockAddId: uint32 := 0xEE
  const BlockAdditional: uint32 := 0xA5
  const BlockDuration: uint32 := 0x9B
  const ReferenceBlock: uint32 := 0xFB
  const DiscardPadding: uint32 := 0x75A2
  const Slices: uint32 := 0x8E
  const TimeSlice: uint32 := 0xE8
  const LaceNumber: uint32 := 0xCC
  const Tracks: uint32 := 0x1654AE6B
  const TrackEntry: uint32 := 0xAE
  const TrackNumber: uint32 := 0xD7
  const TrackUid: uint32 := 0x73C5
  const TrackType: uint32 := 0x83
  const FlagEnabled: uint32 := 0xB9
  const FlagDefault: uint32 := 0x88
  const FlagForced: uint32 := 0x55AA
  const FlagLacing: uint32 := 0x9C
  const DefaultDuration: uint32 := 0x23E383
  const Name: uint32 := 0x536E
  const Language: uint32 := 0x22B59C
  const CodecId: uint32 := 0x86
  const CodecPrivate: uint32 := 0x63A2
  const CodecName: uint32 := 0x258688
  const CodecDelay: uint32 := 0x56AA
  const SeekPreRoll: uint32 := 0x56BB
  const Video: uint32 := 0xE0
  const FlagInterlaced: uint32 := 0x9A
  const StereoMode: uint32 := 0x53B8
  const AlphaMode: uint32 := 0x53C0
  const PixelWidth: uint32 := 0xB0
  const PixelHeight: uint32 := 0xBA
  const PixelCropBottom: uint32 := 0x54AA
  const PixelCropTop: uint32 := 0x54BB
  const PixelCropLeft: uint32 := 0x54CC
  const PixelCropRight: uint32 := 0x54DD
  const DisplayWidth: uint32 := 0x54B0
  const DisplayHeight: uint32 := 0x54BA
  const DisplayUnit: uint32 := 0x54B2
  const AspectRatioType: uint32 := 0x54B3
  const FrameRate: uint32 := 0x2383E3
  const Colour: uint32 := 0x55B0
  const MatrixCoefficients: uint32 := 0x55B1
  const BitsPerChannel: uint32 := 0x55B2
  const ChromaSubsamplingHorz: uint32 := 0x55B3
  const ChromaSubsamplingVert: uint32 := 0x55B4
  const CbSubsamplingHorz: uint32 := 0x55B5
  const CbSubsamplingVert: uint32 := 0x55B6
  const ChromaSitingHorz: uint32 := 0x55B7
  const ChromaSitingVert: uint32 := 0x55B8
  const Range: uint32 := 0x55B9
  const TransferCharacteristics: uint32 := 0x55BA
  const Primaries: uint32 := 0x55BB
  const MaxCll: uint32 := 0x55BC
  const MaxFall: uint32 := 0x55BD
  const MasteringMetadata: uint32 := 0x55D0
  const PrimaryRChromaticityX: uint32 := 0x55D1
  const PrimaryRChromaticityY: uint32 := 0x55D2
  const PrimaryGChromaticityX: uint32 := 0x55D3
  const PrimaryGChromaticityY: uint32 := 0x55D4
  const PrimaryBChromaticityX: uint32 := 0x55D5
  const PrimaryBChromaticityY: uint32 := 0x55D6
  const WhitePointChromaticityX: uint32 := 0x55D7
  const WhitePointChromaticityY: uint32 := 0x55D8
  const LuminanceMax: uint32 := 0x55D9
  const LuminanceMin: uint32 := 0x55DA
  const Audio: uint32 := 0xE1
  const SamplingFrequency: uint32 := 0xB5
  const OutputSamplingFrequency: uint32 := 0x78B5
  const Channels: uint32 := 0x9F
  const BitDepth: uint32 := 0x6264
  const ContentEncodings: uint32 := 0x6D80
  const ContentEncoding: uint32 := 0x6240
  const ContentEncodingOrder: uint32 := 0x5031
  const ContentEncodingScope: uint32 := 0x5032
  const ContentEncodingType: uint32 := 0x5033
  const ContentEncryption: uint32 := 0x5035
  const ContentEncAlgo: uint32 := 0x47E1
  const ContentEncKeyId: uint32 := 0x47E2
  const ContentEncAesSettings: uint32 := 0x47E7
  const AesSettingsCipherMode: uint32 := 0x47E8
  const Cues: uint32 := 0x1C53BB6B
  const CuePoint: uint32 := 0xBB
  const CueTime: uint32 := 0xB3
  const CueTrackPositions: uint32 := 0xB7
  const CueTrack: uint32 := 0xF7
  const CueClusterPosition: uint32 := 0xF1
  const CueRelativePosition: uint32 := 0xF0
  const CueDuration: uint32 := 0xB2
  const CueBlockNumber: uint32 := 0x5378
  const Chapters: uint32 := 0x1043A770
  const EditionEntry: uint32 := 0x45B9
  const ChapterAtom: uint32 := 0xB6
  const ChapterUid: uint32 := 0x73C4
  const ChapterStringUid: uint32 := 0x5654
  const ChapterTimeStart: uint32 := 0x91
  const ChapterTimeEnd: uint32 := 0x92
  const ChapterDisplay: uint32 := 0x80
  const ChapString: uint32 := 0x85
  const ChapLanguage: uint32 := 0x437C
  const ChapCountry: uint32 := 0x437E
  const Tags: uint32 := 0x1254C367
  const Tag: uint32 := 0x7373
  const Targets: uint32 := 0x63C0
  const TargetTypeValue: uint32 := 0x68CA
  const TargetType: uint32 := 0x63CA
  const TagTrackUid: uint32 := 0x63C5
  const SimpleTag: uint32 := 0x67C8
  const TagName: uint32 := 0x45A3
  const TagLanguage: uint32 := 0x447A
  const TagDefault: uint32 := 0x4484
  const TagString: uint32 := 0x4487
  const TagBinary: uint32 := 0x4485
}
