/** The converter's fixed settings. */
module Config {

  /** Attempts per chunk in the main converter and in `src/audio.py`. */
  const MaxAttempts: nat := 3

  /** Attempts per part in the lite converter. */
  const LiteMaxAttempts: nat := 5

  /** A synthesised file must be strictly larger than this many bytes. */
  const MinAudioBytes: nat := 1024

  /** Longest output, in seconds, before a file is split (12 hours). */
  const LimitSeconds: nat := 43200

  /** Bounds of the lite converter's chunk size, in characters. */
  const MinChunk: nat := 2000
  const MaxChunk: nat := 5000

  /** Extensions the repackaging steps accept (already lower-cased). */
  const SupportedExtensions: seq<string> := [".mp3", ".wav", ".m4a", ".mp4"]

  /** Chapter words, as left by the sequential chapter renaming, to numbers. */
  const ChapterNumbers: map<string, nat> := map[
    "UM" := 1, "UMI" := 2, "UMII" := 3, "UMIII" := 4, "UMIV" := 5, "UMV" := 6, "UMVI" := 7,
    "CINCO" := 5, "CINCOI" := 6, "CINCOII" := 7, "CINCOIII" := 8, "CINCOIV" := 9, "CINCOV" := 10,
    "UMX" := 9, "DEZ" := 10, "DEZI" := 11, "ONZE" := 11, "DOZE" := 12
  ]

  /** The table as the renaming evidently meant it: "CAPÍTULO IV" is renamed
      "CAPÍTULO UMV", which is chapter 4, not 6. */
  const CorrectedChapterNumbers: map<string, nat> := ChapterNumbers["UMV" := 4]
}
