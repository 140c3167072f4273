/**
  The appearance settings of src/settings/settings.rs: a theme, a font and a
  font size. Every change that alters a value is written to disk; the write
  itself is not modelled, only how many of them happen.
 */
module SettingsStore {

  datatype ThemeOption = KanagawaDragon | Nord | SolarizedLight | SolarizedDark

  datatype FontOption = Sans | Serif | Monospace

  /** The themes in the order the theme picker lists them. */
  const ALL_THEMES: seq<ThemeOption> := [KanagawaDragon, Nord, SolarizedLight, SolarizedDark]

  /** The fonts in the order the font picker lists them. */
  const ALL_FONTS: seq<FontOption> := [Sans, Serif, Monospace]

  /** Each list names every option exactly once, so a picker offers every choice and no choice twice. */
  lemma PickerListsComplete()
    ensures forall t: ThemeOption :: t in ALL_THEMES
    ensures forall f: FontOption :: f in ALL_FONTS
    ensures forall i, j :: 0 <= i < j < |ALL_THEMES| ==> ALL_THEMES[i] != ALL_THEMES[j]
    ensures forall i, j :: 0 <= i < j < |ALL_FONTS| ==> ALL_FONTS[i] != ALL_FONTS[j]
  {
    forall t: ThemeOption
      ensures t in ALL_THEMES
    {
      match t
      case KanagawaDragon => assert ALL_THEMES[0] == t;
      case Nord => assert ALL_THEMES[1] == t;
      case SolarizedLight => assert ALL_THEMES[2] == t;
      case SolarizedDark => assert ALL_THEMES[3] == t;
    }
    forall f: FontOption
      ensures f in ALL_FONTS
    {
      match f
      case Sans => assert ALL_FONTS[0] == f;
      case Serif => assert ALL_FONTS[1] == f;
      case Monospace => assert ALL_FONTS[2] == f;
    }
  }

  /** The name a picker shows for a theme. */
  function ThemeLabel(t: ThemeOption): string
  {
    match t
    case KanagawaDragon => "Kanagawa Dragon"
    case Nord => "Nord"
    case SolarizedLight => "Solarized Light"
    case SolarizedDark => "Solarized Dark"
  }

  /** The name a picker shows for a font. */
  function FontLabel(f: FontOption): string
  {
    match f
    case Sans => "Sans"
    case Serif => "Serif"
    case Monospace => "Monospace"
  }

  /** No two options share a label, so the shown name identifies the choice. */
  lemma LabelsDistinct(t1: ThemeOption, t2: ThemeOption, f1: FontOption, f2: FontOption)
    ensures ThemeLabel(t1) == ThemeLabel(t2) ==> t1 == t2
    ensures FontLabel(f1) == FontLabel(f2) ==> f1 == f2
  {
    if t1 != t2 {
      assert |ThemeLabel(t1)| != |ThemeLabel(t2)| || ThemeLabel(t1)[0] != ThemeLabel(t2)[0];
    }
    if f1 != f2 {
      assert |FontLabel(f1)| != |FontLabel(f2)|;
    }
  }

  /** Rust's `u16`. */
  type U16 = x: int | 0 <= x < 0x1_0000

  const MIN_FONT_SIZE: U16 := 10
  const MAX_FONT_SIZE: U16 := 48

  /** `u16::clamp(10, 48)`: the nearest size in the allowed range. */
  function ClampFontSize(size: U16): (r: U16)
    ensures MIN_FONT_SIZE <= r <= MAX_FONT_SIZE
    ensures MIN_FONT_SIZE <= size <= MAX_FONT_SIZE ==> r == size
    ensures size < MIN_FONT_SIZE ==> r == MIN_FONT_SIZE
    ensures size > MAX_FONT_SIZE ==> r == MAX_FONT_SIZE
  {
    if size < MIN_FONT_SIZE then MIN_FONT_SIZE
    else if size > MAX_FONT_SIZE then MAX_FONT_SIZE
    else size
  }

  datatype Message =
    | ThemeChanged(theme: ThemeOption)
    | FontChanged(font: FontOption)
    | FontSizeChanged(size: U16)
    | Back

  /** The values the settings screen holds. */
  datatype Prefs = Prefs(theme: ThemeOption, font: FontOption, fontSize: U16)

  /** `SettingsState::default_values`: what is used when nothing can be loaded. */
  const DEFAULT_PREFS: Prefs := Prefs(KanagawaDragon, Sans, 16)

  /** The values after one message of the settings screen. */
  function Apply(p: Prefs, msg: Message): (r: Prefs)
    ensures msg.ThemeChanged? ==> r.theme == msg.theme && r.font == p.font && r.fontSize == p.fontSize
    ensures msg.FontChanged? ==> r.font == msg.font && r.theme == p.theme && r.fontSize == p.fontSize
    ensures msg.FontSizeChanged? ==>
      && MIN_FONT_SIZE <= r.fontSize <= MAX_FONT_SIZE
      && r.fontSize == ClampFontSize(msg.size)
      && r.theme == p.theme && r.font == p.font
    ensures msg.Back? ==> r == p
  {
    match msg
    case ThemeChanged(t) => p.(theme := t)
    case FontChanged(f) => p.(font := f)
    case FontSizeChanged(s) => p.(fontSize := ClampFontSize(s))
    case Back => p
  }

  /** Sending the same message twice changes nothing the second time, so it writes nothing. */
  lemma ApplyIdempotent(p: Prefs, msg: Message)
    ensures Apply(Apply(p, msg), msg) == Apply(p, msg)
  {
  }

  /** A font size in range stays in range whatever the message. */
  lemma FontSizeStaysInRange(p: Prefs, msg: Message)
    requires MIN_FONT_SIZE <= p.fontSize <= MAX_FONT_SIZE
    ensures MIN_FONT_SIZE <= Apply(p, msg).fontSize <= MAX_FONT_SIZE
  {
  }

  /** The defaults are the first option of each picker and a font size in range. */
  lemma DefaultsInRange()
    ensures MIN_FONT_SIZE <= DEFAULT_PREFS.fontSize <= MAX_FONT_SIZE
    ensures DEFAULT_PREFS.theme == ALL_THEMES[0] && DEFAULT_PREFS.font == ALL_FONTS[0]
  {
  }

  class SettingsState {
    var theme: ThemeOption
    var font: FontOption
    var fontSize: U16
    /** How many times the settings have been written to disk. */
    ghost var writes: nat

    function Value(): Prefs
      reads this
    {
      Prefs(theme, font, fontSize)
    }

    /** The settings as loaded: `loaded` when a saved copy was read, the defaults otherwise. */
    constructor (loaded: Prefs)
      ensures Value() == loaded && writes == 0
    {
      theme := loaded.theme;
      font := loaded.font;
      fontSize := loaded.fontSize;
      writes := 0;
    }

    /**
      `SettingsState::update`: apply one message, and write the settings once
      when, and only when, a value actually changed.
     */
    method Update(msg: Message)
      modifies this
      ensures Value() == Apply(old(Value()), msg)
      ensures writes == old(writes) + (if Value() != old(Value()) then 1 else 0)
    {
      var changed := false;
      match msg {
        case ThemeChanged(choice) =>
          if theme != choice {
            theme := choice;
            changed := true;
          }
        case FontChanged(choice) =>
          if font != choice {
            font := choice;
            changed := true;
          }
        case FontSizeChanged(size) =>
          var clamped := ClampFontSize(size);
          if fontSize != clamped {
            fontSize := clamped;
            changed := true;
          }
        case Back =>
      }
      if changed {
        writes := writes + 1;
      }
    }
  }
}
