# Luminol colour core in Dafny

Luminol turns the dominant colours of a wallpaper into a terminal and desktop
theme. This project models the pure core of that pipeline and proves what it
promises:

- **colour values**: the bounded `RGB`/`RGBA`/`ColorData` records, their hex
  codes, HSL/HSV views (Python's `colorsys`, modelled exactly over the reals)
  and the gamma-corrected luma of WCAG 2.1 section 6 (module `Colors`,
  `ColorSys`, `Gamma`, `HexFormat`, `LumaQuality`);
- **contrast and blending**: the WCAG contrast ratio and the two closed-form
  blend solvers with their -1 sentinel (`AssignLogic`, `ColorMath`,
  `ColorComputation`); the `contrast_ratio` of `color/luma.py:43-54` is the
  same formula as `color/color_math.py:37-53` and is modelled once, as
  `Gamma.ContrastRatio`;
- **transforms**: saturation, brightness, hue, contrast and temperature
  adjustments and their fixed composition order (`Transformation`);
- **role assignment**: the dark/light decision and the choice of backgrounds,
  foregrounds, accents and borders, each contrast check being "keep, else
  solve, else fall back" (`AssignLogic`, `ColorAssign`);
- **ANSI-16 generation**: the 4-bit hue-wheel scheme, dye masks, the hue
  search with circular distance and the bounded brightening loop
  (`Ansi4Bit`, `AssignAnsi`);
- **serialisers**: palette lines and templates (`PaletteGenerator`, `Text`),
  the OSC 4/10/11/12 sequences of the "Operating System Commands" section of
  XTerm Control Sequences (`TtyReload`), and SGR codes of ECMA-48 section
  8.3.117 (`TermColors`);
- **colour extraction**: the preset table and the deterministic half of
  k-means (assignment, update, counting, result shaping) (`Extraction`);
- **configuration**: the schema, range, format, template and remap
  validators and the two config classes (`ConfigValidate`, `ConfigParser`,
  `Toml`, `Paths`).

Python dictionaries whose order matters are association lists (`Dict`), and
raised exceptions are the `Err` side of `Wrappers.Result`. Floating-point
numbers are reals. Python's `round` is round-half-to-even, `int()` truncates,
and float `%` with a positive modulus is `x - m * floor(x / m)` (`Numeric`).

## Model

| member | source | states |
|---|---|---|
| Ansi4Bit.BlendDyeEnds | src/luminol/color/ansi_colors/python_4bit.py:7-16 | alpha 0 gives back the base colour and alpha 1 the dye, as the docstring promises |
| Ansi4Bit.DyeChannelEnds | src/luminol/color/ansi_colors/python_4bit.py:13-15 | one rounded channel of the blend is the base channel at alpha 0 and the dye channel at alpha 1 |
| Ansi4Bit.BlendDyeBetween | src/luminol/color/ansi_colors/python_4bit.py:7-16 | for alpha in [0, 1] the blend never raises and every channel lies between the base's and the dye's |
| Ansi4Bit.DyeChannelBetween | src/luminol/color/ansi_colors/python_4bit.py:13-15 | a rounded blended channel lies between the two channels it mixes |
| Ansi4Bit.SlotHues | src/luminol/color/ansi_colors/python_4bit.py:51-124 | a chromatic slot has hue `(hue % 360 + wheel angle) / 360` and the scheme's saturation; the greys have hue and saturation 0 |
| Ansi4Bit.BrightPairs | src/luminol/color/ansi_colors/python_4bit.py:62-121 | each bright colour has the hue and saturation of its normal colour, with the bright lightness instead of the normal one |
| Ansi4Bit.AnsiOrderShape | src/luminol/color/ansi_colors/python_4bit.py:129-146 | `ansi_map` has sixteen names, entry i+8 is the bright twin of entry i, background and foreground are not among them, and entry i is chromatic exactly when i mod 8 is neither 0 nor 7 |
| Ansi4Bit.RgbOfSlots | src/luminol/color/ansi_colors/python_4bit.py:148-150 | the conversion succeeds exactly when every slot's HSL converts, and entry i is the RGB of slot i |
| Ansi4Bit.ThemeLayout | src/luminol/color/ansi_colors/python_4bit.py:126-151 | `ansi-i` is the RGB of the i-th name of `ansi_map`, sixteen entries in all |
| Ansi4Bit.ThemeAccepts | src/luminol/color/ansi_colors/python_4bit.py:126-151 | with saturation and every lightness in [0, 1] the raw theme never raises |
| Ansi4Bit.SlotAccepts | src/luminol/color/ansi_colors/python_4bit.py:51-124 | with parameters in [0, 1] every one of the sixteen palette slots converts to RGB |
| Ansi4Bit.DyeMaskSlots | src/luminol/color/ansi_colors/python_4bit.py:197-207 | dye type "color" selects exactly the twelve chromatic slots, "achromatic" exactly the four greys, "all" all sixteen, any other type none |
| Ansi4Bit.DyeSlots | src/luminol/color/ansi_colors/python_4bit.py:209-213 | a selected slot is blended with the dye, every other slot is copied unchanged, and the length is kept |
| Ansi4Bit.DyeSlotsAccept | src/luminol/color/ansi_colors/python_4bit.py:209-213 | with alpha in [0, 1] dyeing never raises |
| Ansi4Bit.UndyedIsRaw | src/luminol/color/ansi_colors/python_4bit.py:190-192 | dye type "none" or alpha 0 returns the raw theme |
| Ansi4Bit.DyedLayout | src/luminol/color/ansi_colors/python_4bit.py:194-215 | otherwise the dye colour is `HSL(dye_h / 360, dye_s, dye_l).rgb`, and each slot is the blend of the raw slot when the dye type selects it and the raw slot otherwise |
| Ansi4Bit.GenerateAccepts | src/luminol/color/ansi_colors/python_4bit.py:154-215 | with scheme and dye parameters in [0, 1] `generate_color_scheme` never raises |
| AssignAnsi.HueGap | src/luminol/color/ansi_colors/assign_ansi.py:50-54 | the circular hue distance between a colour and the target hue is between 0 and 180 degrees |
| AssignAnsi.HueGapModular | src/luminol/color/ansi_colors/assign_ansi.py:38 | reducing the target hue modulo 360 first makes whole turns of the target irrelevant |
| AssignAnsi.DegreesPeriodic | src/luminol/color/ansi_colors/assign_ansi.py:38 | Python's float `%` by 360 ignores whole turns |
| AssignAnsi.FindColorNone | src/luminol/color/ansi_colors/assign_ansi.py:38-61 | the search returns None exactly when no colour passes both the luma window (when one is given) and the hue tolerance |
| AssignAnsi.FindColorBest | src/luminol/color/ansi_colors/assign_ansi.py:39-66 | otherwise it returns a passing colour of the input whose hue distance is least among the passing colours, and no earlier passing colour ties it (`min` keeps the first) |
| AssignAnsi.TargetHueWheel | src/luminol/color/ansi_colors/assign_ansi.py:99-112 | each chromatic slot aims at its 4bit wheel angle less 15 degrees, and a bright slot at the same hue as its normal one |
| AssignAnsi.RaiseShape | src/luminol/color/ansi_colors/assign_ansi.py:134-142 | a bright-slot match whose HSV value is at least 0.75 (largest channel 192 or more) is kept; one below comes out with largest channel 191, that is value 0.75 |
| AssignAnsi.Rewrite | src/luminol/color/ansi_colors/assign_ansi.py:115-144 | rewriting listed slots of the theme keeps its sixteen entries |
| AssignAnsi.RewritePointwise | src/luminol/color/ansi_colors/assign_ansi.py:115-144 | with distinct slots, entry i is rewritten when i is listed and copied otherwise |
| AssignAnsi.BoostKeepsValue | src/luminol/color/ansi_colors/assign_ansi.py:148-155 | the saturation boost of 1.5 or 1.3 never moves a colour's largest channel |
| AssignAnsi.StepRaises | src/luminol/color/ansi_colors/assign_ansi.py:171 | one brighten-by-1.05 step never lowers the largest channel |
| AssignAnsi.IterateRaises | src/luminol/color/ansi_colors/assign_ansi.py:167-172 | repeating a step that never lowers the largest channel never lowers it |
| AssignAnsi.StepsRaise | src/luminol/color/ansi_colors/assign_ansi.py:167-172 | any number of brighten steps never lowers the largest channel |
| AssignAnsi.Lift | src/luminol/color/ansi_colors/assign_ansi.py:164-172 | the bounded loop stops after at most the budget of steps; no earlier state had enough contrast, and stopping early means the last state has it |
| AssignAnsi.LiftUnique | src/luminol/color/ansi_colors/assign_ansi.py:164-172 | those three facts determine the loop's outcome: the step count is the first that has enough contrast, or the budget |
| AssignAnsi.RunLoop | src/luminol/color/ansi_colors/assign_ansi.py:164-172 | the `while` loop itself, with its counter, ends in the state and step count the recursive definition gives |
| AssignAnsi.BrightenedShape | src/luminol/color/ansi_colors/assign_ansi.py:160-172 | the contrast loop runs at most 15 brighten steps, stops at the first colour whose contrast with the primary background reaches 2.0, and never darkens |
| AssignAnsi.FixSlotShape | src/luminol/color/ansi_colors/assign_ansi.py:160-178 | a slot that already stands off the background is kept; otherwise it is the colour after some number of steps up to 15, never darker |
| AssignAnsi.BrightestLightness | src/luminol/color/ansi_colors/assign_ansi.py:85 | the bright lightness is the HSL lightness of some roles colour and no roles colour is lighter |
| AssignAnsi.AnsiSchemeShape | src/luminol/color/ansi_colors/assign_ansi.py:86-91 | the scheme keeps hue -15 and the default greys, takes the accent's lightness for the normal colours, and a saturation above 0.3 (the accent's, else 0.4) |
| AssignAnsi.CorrectedDyeIsAccent | src/luminol/color/ansi_colors/assign_ansi.py:92-96 | with the hue passed in degrees the dye the generator builds is the accent's own HSL colour |
| AssignAnsi.AsWrittenDyeIsNotAccent | src/luminol/color/ansi_colors/assign_ansi.py:92 | as written, a cyan accent `RGB(0, 255, 255)` (hue 0.5) gives the dye `RGB(255, 2, 0)`, while the corrected hue gives back cyan |
| AssignAnsi.CyanHsl | src/luminol/core/data_types.py:149-153 | `RGB(0, 255, 255).hsl` is hue 0.5, saturation 1, lightness 0.5 |
| AssignAnsi.NearRedHls | src/luminol/core/data_types.py:206-210 | `HSL(0.5 / 360, 1, 0.5).rgb` is `RGB(255, 2, 0)` |
| AssignAnsi.CyanHls | src/luminol/core/data_types.py:206-210 | `HSL(0.5, 1, 0.5).rgb` is `RGB(0, 255, 255)` |
| AssignAnsi.ChromaSlotsDistinct | src/luminol/color/ansi_colors/assign_ansi.py:158 | the twelve chromatic keys are listed once each |
| AssignAnsi.FinishPointwise | src/luminol/color/ansi_colors/assign_ansi.py:114-178 | after matching, boosting and the contrast loop, a chromatic slot is the loop applied to the boosted match (or generated colour) and a grey slot is the boosted generated colour |
| AssignAnsi.GenerateAnsiOutcome | src/luminol/color/ansi_colors/assign_ansi.py:69-180 | `generate_ansi` succeeds exactly when there are image colours and roles and the roles hold `bg-primary`; empty inputs raise the `max()` ValueError and a missing `bg-primary` raises KeyError |
| AssignAnsi.GenerateAnsiFaults | src/luminol/color/ansi_colors/assign_ansi.py:84-157 | with no extracted colour or an empty role dictionary, `max()` over an empty sequence raises ValueError; otherwise a missing bg-primary raises KeyError at line 157 |
| AssignAnsi.BaseAccepts | src/luminol/color/ansi_colors/assign_ansi.py:88-97 | the base theme built from any accent and non-empty roles is produced without raising |
| AssignAnsi.GenerateAnsiLength | src/luminol/color/ansi_colors/assign_ansi.py:69-180 | a produced palette has sixteen entries |
| AssignAnsi.GenerateAnsiLayout | src/luminol/color/ansi_colors/assign_ansi.py:84-180 | with the vibrant colour taken from the one-argument call and the dye hue passed in degrees (the corrected calls at :84 and :92), each slot is the dyed 4bit colour, replaced by the best image match for chromatic slots, boosted, and for chromatic slots brightened against the primary background |
| AssignAnsi.GenerateAnsiAsWritten | src/luminol/color/ansi_colors/assign_ansi.py:84 | as written, `_select_vibrant_color(color_data, "dark")` passes two arguments to a one-parameter function, so every call raises TypeError |
| AssignLogic.Mixed | src/luminol/color/color_math.py:56-86 | `blend(a, b, amount)` with amount in [0, 1] gives a colour whose every channel lies between a's and b's, a itself at 0 and b at 1 |
| AssignLogic.BetweenToward | src/luminol/color/assign_logic.py:182-198 | blending a colour that lies between two anchors further toward one of them keeps it between them |
| AssignLogic.BetweenMaxChannel | src/luminol/color/assign_logic.py:486-489 | a colour between two others has no larger channel than the larger of theirs |
| AssignLogic.LumaContrast | src/luminol/color/color_math.py:37-53 | the contrast ratio of two lumas in 0..255 is defined and lies in [1, 21] |
| AssignLogic.LumaContrastSymmetric | src/luminol/color/color_math.py:37-53 | the ratio does not depend on the order of the lumas |
| AssignLogic.Contrast | src/luminol/color/assign_logic.py:152 | `contrast_ratio(a.luma, b.luma)` of two colours lies in [1, 21] |
| AssignLogic.ContrastOrderFree | src/luminol/color/assign_logic.py:152-211 | the contrast of two colours does not depend on their order, so the dark theme's `contrast_ratio(candidate, bg)` and the light theme's `contrast_ratio(bg, candidate)` measure the same thing |
| AssignLogic.Solve | src/luminol/color/assign_logic.py:162-167 | `find_optimal_blend` with the default maximum returns -1 or an amount in [0, 1], and 0 when the base already meets the target |
| AssignLogic.KeepOrSolve | src/luminol/color/assign_logic.py:157-180 | a candidate meeting the target is kept; otherwise the result is the fallback or a blend between the candidate and the blend colour, and the fallback whenever the solver gives no positive amount |
| AssignLogic.SolveExact | src/luminol/color/color_math.py:89-148 | a solver amount strictly between 0 and 1 reaches exactly the target contrast |
| AssignLogic.SolveOnLumas | src/luminol/color/color_math.py:89-148 | the solver sees the three colours only through their lumas, each in 0..255 |
| AssignLogic.SolveExactLumas | src/luminol/color/color_math.py:121-148 | the same exactness stated on the three lumas |
| AssignLogic.KeepOrSolveExact | src/luminol/color/assign_logic.py:169-174 | when the solver gives an amount strictly between 0 and 1 the result is the candidate blended by exactly that amount |
| AssignLogic.LightPrimaryNotDarker | src/luminol/color/assign_logic.py:98-105 | desaturating by 0.7 and brightening by 1.5 never lower the light primary background's largest channel |
| AssignLogic.DarkSecondaryShape | src/luminol/color/assign_logic.py:76-89 | a second-darkest colour too close in luma (under 4) is brightened; one 4 to 10 lumas brighter is kept; otherwise it is kept or replaced by the brightened primary |
| AssignLogic.DarkBackgrounds | src/luminol/color/assign_logic.py:69-73 | the dark primary background is the darkest colour darkened, never brighter than it |
| AssignLogic.LightBackgrounds | src/luminol/color/assign_logic.py:91-109 | the light primary comes from the entry of largest coverage among the first three (the first on a tie), and the secondary lies between it and the neutral white |
| AssignLogic.MostCovered | src/luminol/color/assign_logic.py:94-96 | `max(color_data[:3], key=coverage)` is an entry of greatest coverage with no earlier entry tying it |
| AssignLogic.DarkFgCandidate | src/luminol/color/assign_logic.py:139-150 | the dark candidate is the first entry of the brighter half with coverage above 0.2, or, when there is none, the least saturated of the first three |
| AssignLogic.LightFgCandidate | src/luminol/color/assign_logic.py:200-209 | the light candidate is the last entry of the darker half with coverage above 0.2, or, when there is none, the darkest entry |
| AssignLogic.PrimaryFg | src/luminol/color/assign_logic.py:152-240 | a candidate that meets contrast 6, is saturated at most 0.3 and (dark theme) has luma at least 90 is kept; when the solver gives no positive amount the result lies between the text anchor and the background |
| AssignLogic.MixedStaysBetween | src/luminol/color/assign_logic.py:182-198 | the saturation and brightness corrections, blends toward the anchor, stay between the anchor and the background |
| AssignLogic.SecondaryFg | src/luminol/color/assign_logic.py:242-266 | the secondary text colour is the candidate when it meets contrast 4.5 against the secondary background, and always lies between the candidate and the theme's text anchor |
| AssignLogic.TertiaryAnchorByChannel | src/luminol/color/assign_logic.py:268-274 | the tertiary text is blended toward black exactly when the tertiary background's HSV value is above 0.65 (largest channel 166 or more), and toward white otherwise |
| AssignLogic.TertiaryRetry | src/luminol/color/assign_logic.py:291-306 | the retry with target 4 gives a colour between the primary background and the anchor |
| AssignLogic.TertiaryFg | src/luminol/color/assign_logic.py:268-310 | the tertiary text colour lies between the primary background and its anchor, and is the primary background itself when that meets contrast 5 and no light-theme desaturation applies |
| AssignLogic.AssignFg | src/luminol/color/assign_logic.py:114-313 | the secondary text lies between the candidate and the text anchor and the tertiary between the primary background and its anchor |
| AssignLogic.HueDistance | src/luminol/color/assign_logic.py:346-349 | the circular distance is at most 180, and not negative for hues less than a turn apart |
| AssignLogic.HueDistanceShape | src/luminol/color/assign_logic.py:346-349 | the distance is symmetric, zero from a hue to itself, and in [0, 180] for hues in [0, 360) |
| AssignLogic.HueBonus | src/luminol/color/assign_logic.py:397-412 | the hue bonus lies in [-0.1, 0.1], is negative exactly below 15 degrees and is 0.1 exactly from 40 to 100 degrees |
| AssignLogic.Score | src/luminol/color/assign_logic.py:383-415 | a candidate's score lies in [-0.1, 1.2] |
| AssignLogic.Candidates | src/luminol/color/assign_logic.py:351-377 | the candidates are drawn from the input and never empty; when some entry passes the value-0.56 filter all candidates pass it, and likewise for the relaxed 0.50 filter |
| AssignLogic.Vivid | src/luminol/color/assign_logic.py:422-430 | the vibrancy post-processing keeps the largest channel, and leaves greys unchanged |
| AssignLogic.SelectVibrant | src/luminol/color/assign_logic.py:316-432 | the selected object is an entry of the input and the processed colour keeps its largest channel |
| AssignLogic.VibrantIsBest | src/luminol/color/assign_logic.py:419-420 | the selected object is a candidate of highest score, with no earlier candidate tying it |
| AssignLogic.AssignAccents | src/luminol/color/assign_logic.py:435-465 | the primary accent is the processed vibrant colour |
| AssignLogic.AccentSources | src/luminol/color/assign_logic.py:453-465 | the secondary accent is the vibrant pick of another entry, or, when every entry equals the chosen one, the primary brightened by 1.2 (dark) or 0.9 (light) |
| AssignLogic.RestDiffers | src/luminol/color/assign_logic.py:455 | an entry of the remaining list is an input entry different from the chosen one |
| AssignLogic.AssignBorder | src/luminol/color/assign_logic.py:468-491 | the active border is the accent, and the inactive border has no larger channel than the larger of the accent's and the background's |
| ColorAssign.WeightedLumaAtMost | src/luminol/color/color_assign.py:28 | with non-negative coverages, lumas of at most `hi` keep the weighted luma at most `hi` times the total coverage |
| ColorAssign.WeightedLumaAtLeast | src/luminol/color/color_assign.py:28 | likewise lumas of at least `lo` keep it at least `lo` times the total coverage |
| ColorAssign.DecideThemeExtremes | src/luminol/color/color_assign.py:16-32 | for coverages summing to 1, a palette whose every luma is at most 128 is dark and one whose every luma is above some `lo` > 128 is light |
| ColorAssign.Arrange | src/luminol/color/color_assign.py:63-65 | the palette the roles read has as many entries as the input |
| ColorAssign.ArrangeSorted | src/luminol/color/color_assign.py:63-65 | unless presorted, the palette is a permutation of the input with lumas non-increasing |
| ColorAssign.ChooseTheme | src/luminol/color/color_assign.py:67-70 | "light" and "dark" pass through unchanged ("auto" asks `decide_theme`) |
| ColorAssign.RoleKeys | src/luminol/color/color_assign.py:89-100 | the role keys are the role names in order |
| ColorAssign.AnsiKeys | src/luminol/color/color_assign.py:103-104 | the n ANSI keys are `ansi-0` to `ansi-(n-1)` in order |
| ColorAssign.Need | src/luminol/color/color_assign.py:108-114 | `theme_dict[k]` succeeds exactly when the key is present, giving its value, and otherwise raises KeyError naming the key |
| ColorAssign.AssignRoles | src/luminol/color/color_assign.py:75-80 | the tertiary background is the one supplied, and the active border is the primary accent |
| ColorAssign.AnsiNameInjective | src/luminol/color/color_assign.py:104 | `f"ansi-{i}"` names differ for different indices |
| ColorAssign.KeyNameInjective | src/luminol/color/color_assign.py:89-114 | role, ANSI and status keys never share a name |
| ColorAssign.AnsiEntries | src/luminol/color/color_assign.py:103-104 | entry i of the ANSI part is `("ansi-i", ansi_colors[i])` |
| ColorAssign.AnsiKeyPlace | src/luminol/color/color_assign.py:103-104 | after the roles, `ansi-j` is present exactly when j is an index of the list, at one place only |
| ColorAssign.StatusKeysAbsent | src/luminol/color/color_assign.py:103-107 | no status key is present before the status step |
| ColorAssign.WithAnsiAppends | src/luminol/color/color_assign.py:103-104 | assigning the fresh `ansi-<i>` keys in order appends them to the dictionary |
| ColorAssign.AnsiGetPresent | src/luminol/color/color_assign.py:103-104 | the dictionary reads back each listed ANSI colour |
| ColorAssign.AnsiGetAbsent | src/luminol/color/color_assign.py:103-104 | and holds no ANSI key past the list's end |
| ColorAssign.AnsiLookup | src/luminol/color/color_assign.py:108-114 | so `theme_dict[f"ansi-{j}"]` gives the j-th colour, or KeyError when the list is shorter |
| ColorAssign.SetStatusAppends | src/luminol/color/color_assign.py:108-114 | one status assignment appends the status key with its slot's colour |
| ColorAssign.SetStatusMissing | src/luminol/color/color_assign.py:108-114 | one status assignment whose slot is missing raises KeyError naming the slot |
| ColorAssign.StatusAppendKeeps | src/luminol/color/color_assign.py:108-114 | a status assignment changes no ANSI entry and no other status key |
| ColorAssign.WithStatusAppends | src/luminol/color/color_assign.py:106-114 | when the list reaches the theme's last status slot, error, warning and success are appended in that order with their slots' colours |
| ColorAssign.WithStatusMissing | src/luminol/color/color_assign.py:106-114 | otherwise KeyError names the first status slot missing |
| ColorAssign.RoleDictKeys | src/luminol/color/color_assign.py:89-100 | the literal lists the ten role names in order |
| ColorAssign.RoleDictDistinct | src/luminol/color/color_assign.py:89-100 | with no name twice |
| ColorAssign.RoleDictShape | src/luminol/color/color_assign.py:89-100 | ten role entries, distinct plain names, `bg-tertiary` third with the tertiary background |
| ColorAssign.ThemeDictKeys | src/luminol/color/color_assign.py:89-114 | the finished keys are the ten roles, then `ansi-0..`, then error, warning and success |
| ColorAssign.ThemeDictKeyAt | src/luminol/color/color_assign.py:89-114 | position i holds a role, an ANSI key or a status key according to where i falls |
| ColorAssign.ThemeDictDistinct | src/luminol/color/color_assign.py:89-114 | no key appears twice |
| ColorAssign.ThemeDictAnsiReads | src/luminol/color/color_assign.py:103-104 | the finished dictionary reads back every ANSI colour |
| ColorAssign.ThemeDictStatusReads | src/luminol/color/color_assign.py:107-114 | each status colour is the colour of its slot: 1, 3, 2 for dark and 9, 11, 10 for light |
| ColorAssign.ThemeDictNamesDistinct | src/luminol/color/color_assign.py:89-114 | the key strings the program writes are as distinct as the keys |
| ColorAssign.AssembleOutcome | src/luminol/color/color_assign.py:89-116 | assembly gives roles, ANSI entries and status entries when the list reaches the warning slot, and KeyError naming the first missing status slot otherwise |
| ColorAssign.AssembleKeys | src/luminol/color/color_assign.py:89-116 | an assembled dictionary has exactly those keys, distinct names, every ANSI colour, the three status colours and the tertiary background |
| ColorAssign.AssembledFacts | src/luminol/color/color_assign.py:89-116 | the same facts stated on the assembled entries |
| ColorAssign.AssignColorRejects | src/luminol/color/color_assign.py:51-61 | `assign_color` raises ValueError exactly for fewer than eight colours or a theme type other than auto, light and dark, checked in that order, with the source's messages (`Need at least 8 colors for theme generation, got <n>.` and `'<type>' is not a valid theme type. Supported option are auto, light, dark`) |
| ColorAssign.AssignColorOutcome | src/luminol/color/color_assign.py:63-116 | past validation the result is the role dictionary of the arranged palette and chosen theme, extended by the ANSI and status entries, or KeyError for a short ANSI list |
| ColorAssign.AssignColorKeys | src/luminol/color/color_assign.py:35-116 | every dictionary `assign_color` returns has the ten roles, the ANSI keys and the three status keys, no name twice, and status colours copied from their slots |
| ColorAssign.UnpackThree | src/luminol/color/color_assign.py:75 | three-way unpacking succeeds exactly for three items, in order |
| ColorAssign.AsWrittenNeverAssigns | src/luminol/color/color_assign.py:75 | as written, even with the failing imports of lines 4-10 resolved, every call raises ValueError: either validation fails or `_assign_bg`'s pair cannot be unpacked into three backgrounds |
| ColorAssign.CorrectedAssigns | src/luminol/color/color_assign.py:35-116 | with the third background supplied, every valid input whose ANSI list has at least twelve colours yields a theme |
| ColorComputation.BlendForContrastOfLumas | src/luminol/color/color_computation.py:84-150 | ValueError exactly when both or neither direction is given; 0 when the contrast already reaches the target; otherwise -1 or a ratio in [0, min(1, max_blend)], with -1 in the brighten branch exactly when the brighten colour is darker than the required luma and in the darken branch exactly when the darken colour is lighter than it |
| ColorComputation.BlendForContrast | src/luminol/color/color_computation.py:84-150 | on colours: the same error condition and the same range of results |
| ColorComputation.LumaOfRgbRange | src/luminol/color/color_computation.py:22-41 | the luma of any colour lies in [0, 255] |
| ColorComputation.BrightenStep | src/luminol/color/color_computation.py:124-133 | when the contrast falls short and the brighten colour reaches the required luma, the required luma lies above the lighter luma and the ratio lies in (0, 1] |
| ColorComputation.DarkenTarget | src/luminol/color/color_computation.py:116-117 | a contrast short of the target means the target is positive, so the division at line 139 is defined |
| ColorComputation.DarkenStep | src/luminol/color/color_computation.py:139-148 | the same for the darken branch: the required luma lies below the darker luma and the ratio lies in (0, 1] |
| ColorComputation.BrightenHits | src/luminol/color/color_computation.py:124-133 | blending the lighter luma by the computed t toward the brighten luma gives exactly the target contrast |
| ColorComputation.DarkenHits | src/luminol/color/color_computation.py:139-148 | blending the darker luma by the computed t toward the darken luma gives exactly the target contrast |
| ColorComputation.BlendForContrastHitsTarget | src/luminol/color/color_computation.py:84-150 | a result strictly between 0 and max_blend, in either direction, is a blend whose contrast equals the target |
| ColorComputation.BrightenBlendHits | src/luminol/color/color_computation.py:120-133 | the brighten half of that statement |
| ColorComputation.DarkenBlendHits | src/luminol/color/color_computation.py:135-148 | the darken half of that statement |
| ColorComputation.BlendForContrastSentinel | src/luminol/color/color_computation.py:126-127 | -1 means that no blend amount in [0, 1] toward the given colour reaches the required luma |
| ColorComputation.DegenerateAgrees | src/luminol/color/color_computation.py:129-131 | when the anchor is within 1e-6 of the source luma and still reaches the required luma, the required luma is itself within 1e-6, so returning 0 is right up to that tolerance |
| ColorComputation.NearWhiteShape | src/luminol/color/color_computation.py:153-178 | with the default thresholds white is near white, black and pure red are not, and a brighter grey stays near white once a grey is |
| ColorMath.MixIsLerp | src/luminol/color/color_math.py:82-84 | `(1 - amount) * x + amount * y` is the point `amount` of the way from x to y |
| ColorMath.BlendChannelBetween | src/luminol/color/color_math.py:56-86 | for amounts in [0, 1] a blended channel lies between the two inputs; amount 0 gives the first and amount 1 the second |
| ColorMath.BlendBetween | src/luminol/color/color_math.py:56-86 | `blend` succeeds for amounts in [0, 1], each channel lies between the two colours' channels, and amounts 0 and 1 return the inputs unchanged |
| ColorMath.RequiredLumaMeetsTarget | src/luminol/color/color_math.py:124-130 | the required luma has exactly the target contrast with the other colour, on the same side of it as the base |
| ColorMath.OptimalBlendOfLumas | src/luminol/color/color_math.py:89-148 | 0 when the contrast already meets the target, and otherwise -1 or an amount in [0, min(1, max_blend)] |
| ColorMath.FindOptimalBlend | src/luminol/color/color_math.py:89-148 | the same on colours, through their lumas |
| ColorMath.OptimalBlendHitsTarget | src/luminol/color/color_math.py:132-148 | an amount strictly between 0 and max_blend blends the base exactly onto the required luma, whose contrast is the target |
| ColorMath.OptimalBlendFirst | src/luminol/color/color_math.py:132-148 | every smaller amount still falls short of the target, so the amount returned is the least that reaches it |
| ColorMath.OptimalBlendSentinel | src/luminol/color/color_math.py:136-145 | -1 means the contrast falls short and no amount in [0, 1] blends onto the required luma |
| ColorMath.OptimalBlendSentinelExact | src/luminol/color/color_math.py:136-145 | conversely, when the contrast falls short, no amount reaches the required luma and the degenerate tolerance case does not apply, the result is -1 |
| ColorMath.ShortOfSolution | src/luminol/color/color_math.py:140-144 | an amount below the solution t leaves the blend strictly between the base and the required luma |
| ColorMath.BelowRequiredLuma | src/luminol/color/color_math.py:121-130 | any luma between the base and the required luma, excluding the latter, still has contrast below the target |
| Colors.MakeRgb | src/luminol/core/data_types.py:115-120 | `RGB(r, g, b)` succeeds exactly when every channel is in 0..255, keeping the channels, and raises ValueError otherwise |
| Colors.MakeRgba | src/luminol/core/data_types.py:295-299 | `RGBA` succeeds exactly when the channels are in 0..255 and the alpha in [0, 1]; a bad channel raises the channel error before the alpha is looked at |
| Colors.HexRoundTrip | src/luminol/core/data_types.py:160-163 | the hex string is `#` and six characters whose pairs read back as r, g and b |
| Colors.HexAlphabet | src/luminol/core/data_types.py:160-163 | it uses only `#` and lower-case hex digits |
| Colors.HexInjective | src/luminol/core/data_types.py:160-163 | two colours have the same hex string exactly when they are equal |
| Colors.HexExample | src/luminol/core/data_types.py:106-108 | `RGB(255, 128, 0).hex` is `#ff8000` |
| Colors.Hex8Layout | src/luminol/core/data_types.py:330-334 | the eight-digit form is the six-digit form followed by two digits reading back as `round(a * 255)`, which lies in 0..255 |
| Colors.Hex8Example | src/luminol/core/data_types.py:286-288 | `RGBA(255, 128, 0, 0.5).hex8` is `#ff800080` |
| Colors.CylinderRanges | src/luminol/core/data_types.py:148-158 | `.hsl` and `.hsv` give a hue in [0, 1) and the other components in [0, 1]; greys have hue and saturation 0; HSV saturation is 0 exactly for greys, and the value is the largest channel over 255 |
| Colors.ScaleInRange | src/luminol/core/data_types.py:209 | `round(x * 255)` of an x in [0, 1] is a valid channel |
| Colors.ScaleUnit | src/luminol/core/data_types.py:209 | a channel divided by 255 and scaled back is unchanged |
| Colors.HslToRgbAccepts | src/luminol/core/data_types.py:205-209 | `HSL.rgb` never raises when lightness and saturation are in [0, 1] |
| Colors.HsvToRgbAccepts | src/luminol/core/data_types.py:251-255 | `HSV.rgb` never raises for a non-negative hue with saturation and value in [0, 1] |
| Colors.HsvRoundTrip | src/luminol/core/data_types.py:154-158 | `c.hsv.rgb` gives back c, for every colour |
| ColorSys.Hue | src/luminol/core/data_types.py:151 | the hue of a non-grey is in [0, 1) |
| ColorSys.RawHue | src/luminol/core/data_types.py:151 | before reduction the hue, in sixths of a turn, lies in [-1, 5] |
| ColorSys.HueSixfold | src/luminol/core/data_types.py:151 | six times the hue is the raw hue, moved up a whole turn when it is negative |
| ColorSys.RgbToHsv | src/luminol/core/data_types.py:157 | `rgb_to_hsv` gives the largest channel as value; greys have hue and saturation 0; on the unit cube the components are in range and the saturation is 0 exactly for greys |
| ColorSys.HsvToRgb | src/luminol/core/data_types.py:254 | `hsv_to_rgb` with saturation 0 gives the grey of the value |
| ColorSys.HsvToRgbBounds | src/luminol/core/data_types.py:254 | for a hue >= 0 and s, v in [0, 1] the channels span exactly `v * (1 - s)` to v |
| ColorSys.SextantAtBounds | src/luminol/core/data_types.py:254 | the same, sextant by sextant |
| ColorSys.MiddleChannel | src/luminol/core/data_types.py:254 | an intermediate channel lies between that minimum and v |
| ColorSys.UnitDefined | src/luminol/core/data_types.py:151-157 | neither conversion divides by zero on the unit cube |
| ColorSys.HsvChroma | src/luminol/core/data_types.py:157 | value times saturation is the largest channel minus the smallest |
| ColorSys.RgbToHls | src/luminol/core/data_types.py:151 | `rgb_to_hls` gives lightness as the mid-range of the channels, the same hue as `rgb_to_hsv` for non-greys, hue and saturation 0 for greys, and components in range on the unit cube |
| ColorSys.HueChannel | src/luminol/core/data_types.py:208 | each channel of `hls_to_rgb` lies between its two bounds |
| ColorSys.HlsBoundsOrder | src/luminol/core/data_types.py:208 | for l and s in [0, 1] the bounds satisfy 0 <= m1 <= l <= m2 <= 1 |
| ColorSys.HlsToRgb | src/luminol/core/data_types.py:208 | `hls_to_rgb` with saturation 0 gives the grey of the lightness |
| ColorSys.HlsToRgbUnit | src/luminol/core/data_types.py:208 | for l and s in [0, 1] every channel is in [0, 1] |
| ColorSys.HsvRoundTrip | src/luminol/core/data_types.py:154-158 | `hsv_to_rgb` undoes `rgb_to_hsv` exactly on the unit cube |
| ColorSys.RedMax | src/luminol/core/data_types.py:154-158 | the round trip when red is the largest channel |
| ColorSys.GreenMax | src/luminol/core/data_types.py:154-158 | the round trip when green is the largest channel |
| ColorSys.BlueMax | src/luminol/core/data_types.py:154-158 | the round trip when blue is the largest channel |
| ConfigParser.GetOr | src/luminol/config/parser.py:36-40 | `d.get(key, default)` gives the stored value when the key is present and the default otherwise |
| ConfigParser.LoadGlobal | src/luminol/config/parser.py:32-40 | the global settings are the `[global]` table or `{}`; wallpaper-command, reload-commands and theme-type default to "", [] and "auto"; a `global` entry that is not a table raises AttributeError |
| ConfigParser.ValidateGlobal | src/luminol/config/parser.py:42-48 | validation passes exactly when the settings are well typed and the theme type is allowed, and raises InvalidConfigError otherwise |
| ConfigParser.GlobalAccepted | src/luminol/config/parser.py:32-48 | a loaded document's global section validates exactly when its `[global]` table (or `{}`) is well typed with an allowed theme type |
| ConfigParser.FromDocumentTail | src/luminol/config/parser.py:59-63 | a section taken from the tail of the document is taken from the document |
| ConfigParser.EnabledSections | src/luminol/config/parser.py:59-63 | the comprehension raises AttributeError exactly when some entry's value has no `.get`; otherwise every section it keeps comes from the document, and every non-global entry whose `enabled` is truthy is kept |
| ConfigParser.LoadApplications | src/luminol/config/parser.py:57-65 | the same error condition and contents, with `app_list` the section names in order |
| ConfigParser.Names | src/luminol/config/parser.py:65 | `list(app_config)` is the section names in order |
| ConfigParser.ValidateApplications | src/luminol/config/parser.py:67-72 | passes exactly when `validate_application_config` returns True, raises InvalidConfigError exactly when it returns False, and passes on any exception it raises |
| ConfigParser.AllSections | src/luminol/config/parser.py:59-63 | a property holds for every kept section exactly when it holds for every enabled non-global entry of the document |
| ConfigParser.ApplicationsAccepted | src/luminol/config/parser.py:57-72 | the application sections of a loaded document validate exactly when every enabled non-global section is free of crashes and of issues |
| ConfigValidate.ValidateDatatypes | src/luminol/config/validate.py:58-81 | one type error per option whose schema entry names another type, none otherwise: no errors exactly when every schema-typed option has its type |
| ConfigValidate.MissingRequired | src/luminol/config/validate.py:84-105 | the names collected are exactly the required schema options absent from the section |
| ConfigValidate.ValidateMandatory | src/luminol/config/validate.py:84-105 | at most one error, raised exactly when some required option is missing, and naming only missing required options |
| ConfigValidate.UnsupportedOptions | src/luminol/config/validate.py:108-126 | the options warned about are exactly those present in the section and absent from the schema |
| ConfigValidate.DatatypesAppend | src/luminol/config/validate.py:58-81 | an entry the schema does not type adds no type error |
| ConfigValidate.MissingAppend | src/luminol/config/validate.py:84-105 | an entry under a name outside the schema changes no missing-option report |
| ConfigValidate.CheckNotBlank | src/luminol/config/validate.py:129-149 | the loop raises AttributeError exactly when a listed option is present but not a string, and otherwise reports exactly the listed options that are blank after stripping |
| ConfigValidate.ValidateStringOptions | src/luminol/config/validate.py:129-149 | over color-format, output-file and syntax: raises exactly on a non-string, and reports nothing exactly when none is blank |
| ConfigValidate.ValidateColorFormat | src/luminol/config/validate.py:152-173 | a single error naming the format exactly when a truthy color-format is not one of SUPPORTED_COLOR_FORMATS: hex6, hex8, rgb, rgba, rgb_decimal or rgba_decimal |
| ConfigValidate.FormatAgreesWithConverter | src/luminol/config/validate.py:152-173 | a non-empty format passes validation exactly when the palette converter accepts it |
| ConfigValidate.ValidateOutputFile | src/luminol/config/validate.py:176-205 | a non-string output-file raises TypeError; otherwise an error is reported exactly when a path with a directory part names a missing directory or one that cannot be written, and it says which |
| ConfigValidate.BareOutputAccepted | src/luminol/config/validate.py:178-180 | a plain file name is accepted whatever the file system holds |
| ConfigValidate.NestedOutput | src/luminol/config/validate.py:182-205 | `dir/name` is accepted exactly when `dir` exists and is writable |
| ConfigValidate.ValidateTemplateAndSyntax | src/luminol/config/validate.py:208-255 | raises exactly on the crash condition; no template reports nothing; every error is either a template file that does not exist at the resolved path or a syntax lacking the word `placeholder` |
| ConfigValidate.MissingTokens | src/luminol/config/validate.py:242-253 | the tokens warned about are exactly `{name}` and `{color}` when the syntax lacks them |
| ConfigValidate.AmountIssues | src/luminol/config/validate.py:326-405 | no error exactly when every transformation amount has its type and lies in its bounds; every error names the colour and an offending transformation |
| ConfigValidate.SourceIssues | src/luminol/config/validate.py:295-323 | at most one error; "no source" exactly when the source is missing or falsy, and no error exactly when the source is an available colour |
| ConfigValidate.ColorIssues | src/luminol/config/validate.py:280-405 | a colour entry raises no error exactly when it is a table with a valid source and valid amounts; every error is about that colour |
| ConfigValidate.FaultyTail | src/luminol/config/validate.py:280-405 | a colour faulty in the rest of the table is faulty in the table |
| ConfigValidate.TableIssues | src/luminol/config/validate.py:280-405 | the table reports nothing exactly when every colour entry is valid, and each error is about a faulty colour of the table |
| ConfigValidate.ValidateRemapColors | src/luminol/config/validate.py:258-407 | nothing when remap-colors is falsy; "no colors table" when the table is missing or empty; otherwise only colour errors; a non-dict table raises AttributeError |
| ConfigValidate.BoundsCoverTransformations | src/luminol/config/validate.py:48-55 | a transformation has bounds exactly when it is one of the six supported ones |
| ConfigValidate.GlobalIssues | src/luminol/config/validate.py:410-440 | no error exactly when the settings are well typed and a truthy theme-type is auto, light or dark |
| ConfigValidate.ValidateGlobalConfig | src/luminol/config/validate.py:410-440 | returns True under exactly that condition |
| ConfigValidate.Sequence | src/luminol/config/validate.py:453-463 | the checks of a section run in order: the first exception wins, otherwise the errors are concatenated in order |
| ConfigValidate.ValidateApplication | src/luminol/config/validate.py:449-463 | a section raises exactly on a crash condition, raises only the errors the checks raise, and reports no error exactly when it is valid |
| ConfigValidate.CheckAll | src/luminol/config/validate.py:449-477 | the loop over sections raises exactly when some section raises, with that section's exception, and otherwise returns True exactly when every section reports nothing |
| ConfigValidate.SectionChecks | src/luminol/config/validate.py:449-463 | each section raises exactly on its crash condition, and reports nothing exactly when it does not crash and is valid |
| ConfigValidate.ApplicationConfigOk | src/luminol/config/validate.py:443-477 | the result is True exactly when every section is crash-free and valid |
| ConfigValidate.ValidateApplicationConfig | src/luminol/config/validate.py:443-477 | raises exactly when some section crashes, and otherwise returns True exactly when every section is valid |
| ConfigValidate.LookupUnchanged | src/luminol/config/validate.py:449 | an entry appended under another key leaves a lookup unchanged |
| ConfigValidate.UnknownOptionIgnored | src/luminol/config/validate.py:108-126 | an option outside the schema is warned about and changes no error of its section |
| ConfigValidate.SchemaIgnores | src/luminol/config/validate.py:58-126 | such an option is reported as unsupported and leaves the type and required-option checks unchanged |
| ConfigValidate.StringsSame | src/luminol/config/validate.py:129-149 | the string check reads only color-format, output-file and syntax |
| ConfigValidate.FormatSame | src/luminol/config/validate.py:152-173 | the format check reads only color-format |
| ConfigValidate.OutputSame | src/luminol/config/validate.py:176-205 | the output check reads only output-file |
| ConfigValidate.TemplateSame | src/luminol/config/validate.py:208-255 | the template check reads only template and syntax |
| ConfigValidate.RemapSame | src/luminol/config/validate.py:258-407 | the remap check reads only remap-colors and colors |
| ConfigValidate.CheckNotBlankSame | src/luminol/config/validate.py:129-149 | the blank check reads only the names it is given |
| ConfigValidate.UnknownGlobalIgnored | src/luminol/config/validate.py:410-440 | an unknown global option is warned about and does not change the verdict |
| Extraction.PresetAccepted | src/luminol/color/extraction.py:10-14 | a preset is accepted exactly when it is high, balanced or fast, and otherwise raises ValueError |
| Extraction.PresetOrder | src/luminol/color/extraction.py:20-32 | fast, balanced and high are successively finer (resize, sample count and iterations never decrease), pairwise different, and fast samples at least one pixel |
| Extraction.Nearest | src/luminol/color/extraction.py:138-141 | `argmin` over the squared distances: the index of a closest centroid, the first such index on a tie |
| Extraction.NearestDist | src/luminol/color/extraction.py:154 | `distances_sq.min(axis=1)` is the distance to some centroid and no larger than any |
| Extraction.Assign | src/luminol/color/extraction.py:138-141 | every pixel gets the first of its closest centroids |
| Extraction.BinCountIsCount | src/luminol/color/extraction.py:172 | `np.bincount(..., minlength=n)` counts, for each cluster, the pixels assigned to it |
| Extraction.BinCountTotal | src/luminol/color/extraction.py:172 | the counts add up to the number of sampled pixels |
| Extraction.Members | src/luminol/color/extraction.py:148-150 | `sampled_pixels[mask]` holds as many pixels as the cluster's count, all of them sampled pixels, including every pixel assigned to the cluster |
| Extraction.MeanInBox | src/luminol/color/extraction.py:150 | the mean of pixels inside a box lies in the box |
| Extraction.Farthest | src/luminol/color/extraction.py:154 | `argmax` of the nearest distances picks a pixel at least as far from its centroid as any other |
| Extraction.Update | src/luminol/color/extraction.py:144-156 | one update yields one centroid per cluster |
| Extraction.UpdateCluster | src/luminol/color/extraction.py:147-156 | a cluster with pixels moves to their mean; an empty one moves to a sampled pixel farthest from its centroid |
| Extraction.UpdateInBox | src/luminol/color/extraction.py:144-156 | if every pixel lies in a box, every updated centroid does |
| Extraction.ConvergeKeeps | src/luminol/color/extraction.py:136-163 | a property each round preserves holds when the loop stops, whether by convergence or by running out of rounds |
| Extraction.KMeans | src/luminol/color/extraction.py:136-163 | the loop keeps one centroid per cluster |
| Extraction.KMeansInBox | src/luminol/color/extraction.py:136-163 | centroids that start inside a box holding every pixel stay inside it |
| Extraction.KMeansFixed | src/luminol/color/extraction.py:158-163 | centroids the round leaves unchanged are the result |
| Extraction.DominanceOrder | src/luminol/color/extraction.py:176 | the dominance order lists every cluster index exactly once |
| Extraction.DominanceOrderSorted | src/luminol/color/extraction.py:176 | clusters are in non-increasing order of count, with ties by falling index |
| Extraction.OnceEach | src/luminol/color/extraction.py:176 | a permutation of the indices holds each index once |
| Extraction.RankDistinct | src/luminol/color/extraction.py:176 | distinct clusters never tie in the order's key |
| Extraction.RankOrder | src/luminol/color/extraction.py:176 | comparing keys compares counts first, then indices |
| Extraction.ClipChannel | src/luminol/color/extraction.py:182 | `int(np.clip(x, 0, 255))` truncates a channel inside the range and clamps one outside it |
| Extraction.KeepNonEmpty | src/luminol/color/extraction.py:180-181 | the clusters kept are exactly those of the order with a positive count, in order and without repeats |
| Extraction.ShapeKeys | src/luminol/color/extraction.py:179-184 | a colour is a key of the result exactly when some cluster with pixels clips to it |
| Extraction.ShapeKeysSound | src/luminol/color/extraction.py:179-184 | every key comes from a cluster with pixels |
| Extraction.ShapeKeysComplete | src/luminol/color/extraction.py:179-184 | every cluster with pixels gives a key |
| Extraction.ShapeValues | src/luminol/color/extraction.py:173-184 | every coverage is a positive share of at most 1 |
| Extraction.SumOverPerm | src/luminol/color/extraction.py:176-184 | summing the counts of the same clusters in another order gives the same sum |
| Extraction.SumOverKept | src/luminol/color/extraction.py:181 | dropping the empty clusters does not change the sum |
| Extraction.EntriesSum | src/luminol/color/extraction.py:173-184 | the coverages written add up to the kept clusters' counts over the total |
| Extraction.ShapeDistinct | src/luminol/color/extraction.py:179-184 | when no two clusters with pixels clip to the same colour, no entry overwrites another |
| Extraction.CoverageSum | src/luminol/color/extraction.py:173-184 | then the coverages add up to exactly 1 |
| Extraction.Sample | src/luminol/color/extraction.py:103-109 | images with at most the sample count keep every pixel; larger ones are sampled down to exactly the sample count, always choosing image pixels |
| Extraction.Seeds | src/luminol/color/extraction.py:112-133 | the initial centroids are n sampled pixels |
| Extraction.Cluster | src/luminol/color/extraction.py:111-172 | n centroids and n counts, the counts adding up to the number of sampled pixels |
| Extraction.ClusterInRange | src/luminol/color/extraction.py:111-182 | with pixels in [0, 255], every final centroid stays in range and clips by truncation alone |
| Extraction.ClusterCountBounds | src/luminol/color/extraction.py:86-91 | the number of clusters is at most the requested number and the number of pixels, and is their minimum without the uniqueness check |
| Extraction.ExtractOutcome | src/luminol/color/extraction.py:44-189 | extraction succeeds exactly when at least one cluster is asked for and the sample count is positive; any failure is re-raised as RuntimeError |
| Extraction.ExtractShape | src/luminol/color/extraction.py:176-186 | a successful result has distinct keys, at most one per cluster, each with a coverage in (0, 1] |
| Extraction.ExtractCoverageSum | src/luminol/color/extraction.py:173-186 | when no two clusters clip to the same colour the coverages add up to 1 |
| Extraction.GetColorsOutcome | src/luminol/color/extraction.py:7-41 | an unknown preset raises its ValueError before the image is read; otherwise colours come back exactly when at least one is asked for and the resized image has a pixel |
| Gamma.CurvesMonotone | src/luminol/core/data_types.py:72-77 | the power curves standing for `** 2.4` and `** (1 / 2.4)` are monotone on [0, 1] |
| Gamma.ChannelBranch | src/luminol/core/data_types.py:72-77 | the linear branch `c / 255 <= 0.04045` is taken exactly for channels up to 10 |
| Gamma.ToLinearRange | src/luminol/core/data_types.py:72-77 | `_to_linear` maps 0..255 into [0, 1], with 0 to 0, 255 to 1, and the two branches on either side of the knee |
| Gamma.ToLinearMonotone | src/luminol/core/data_types.py:72-77 | `_to_linear` is monotone in the channel |
| Gamma.StandardRoundTrip | src/luminol/color/color_computation.py:7-19 | `linear_to_standard(to_linear(c))` gives back c for every channel |
| Gamma.LinearToStandardRange | src/luminol/color/color_computation.py:15-19 | linear light in [0, 1] encodes to a channel in 0..255 |
| Gamma.LinearToStandardMonotone | src/luminol/color/color_computation.py:15-19 | encoding is monotone on [0, 1], across the knee as well |
| Gamma.LumaRange | src/luminol/core/data_types.py:139-146 | luma lies in [0, 255], black has luma 0 and white 255 |
| Gamma.LumaMonotone | src/luminol/core/data_types.py:139-146 | raising any channel never lowers the luma |
| Gamma.ContrastSymmetric | src/luminol/color/color_math.py:37-53 | the contrast ratio does not depend on the order of its arguments |
| Gamma.ContrastSelf | src/luminol/color/color_math.py:37-53 | a luma has contrast exactly 1 with itself |
| Gamma.ContrastBounds | src/luminol/color/color_math.py:37-53 | for non-negative lumas the ratio is defined and at least 1, and at most 21 for lumas up to 255 |
| HexFormat.ClampedAlphaByte | src/luminol/color/conversion.py:30-31 | the clamped alpha byte always lies in 0..255 |
| HexFormat.ClampedAlphaByteEnds | src/luminol/color/conversion.py:30-31 | alphas at or below 0 give 0, at or above 1 give 255, and in between give `round(a * 255)` |
| HexFormat.RgbaToHexLayout | src/luminol/color/conversion.py:4-34 | with an alpha the code is the six-digit code followed by two digits reading back as the clamped alpha byte; for valid channels the six-digit code is `#` and three pairs reading back as r, g and b |
| HexFormat.AlphaSuffixes | src/luminol/color/conversion.py:30-34 | full transparency ends in `00` and full opacity in `FF` |
| HexFormat.TupleHexAgrees | src/luminol/utils/data_types.py:12-25 | the namedtuple helpers are `rgba_to_hex` without and with the alpha, and hex8 extends hex6 |
| HexFormat.HexExamples | src/luminol/utils/data_types.py:50-62 | `RGB(255, 128, 0).hex` is `#FF8000` and `RGBA(255, 128, 0, 0.5).hex8` is `#FF800080` |
| LumaQuality.LumaOf | src/luminol/color/luma.py:1-40 | raises ValueError exactly for a quality other than fast and high, and the high quality is the gamma-corrected luma |
| LumaQuality.FastLumaShape | src/luminol/color/luma.py:18-20 | the fast luma maps black to 0 and white to 255, stays in [0, 255] for valid channels, and is monotone in every channel |
| LumaQuality.QualitiesAgreeAtExtremes | src/luminol/color/luma.py:1-40 | both qualities give 0 for black and 255 for white |
| PaletteGenerator.ConvertFormat | src/luminol/utils/palette_generator.py:8-67 | a colour converts exactly when the format is supported, and otherwise raises the unsupported-format ValueError |
| PaletteGenerator.HexRoundTrip | src/luminol/utils/palette_generator.py:15-47 | hex6 is `#` and three pairs reading back as the channels; hex8 extends hex6 with a pair reading back as the alpha byte |
| PaletteGenerator.ConvertHex | src/luminol/utils/palette_generator.py:15-47 | hex6 and hex8 are `rgba_to_hex` without and with the alpha, an opaque colour taking alpha 1 |
| PaletteGenerator.SolidHex8 | src/luminol/utils/palette_generator.py:42-44 | an opaque colour's hex8 ends in `FF`, as forcing full opacity promises |
| PaletteGenerator.AlphaIgnored | src/luminol/utils/palette_generator.py:15-39 | hex6, rgb and rgb_decimal ignore the alpha |
| PaletteGenerator.OpaqueIsFullAlpha | src/luminol/utils/palette_generator.py:41-67 | every format writes an opaque colour as the same colour with alpha 1.0 |
| PaletteGenerator.CssWrapsDecimal | src/luminol/utils/palette_generator.py:23-67 | the rgb and rgba forms are the decimal forms inside `rgb(...)` and `rgba(...)` |
| PaletteGenerator.ReadDecimals | src/luminol/utils/palette_generator.py:38 | three integers joined by ", " read back as the three integers |
| PaletteGenerator.DecimalRoundTrip | src/luminol/utils/palette_generator.py:32-39 | the rgb_decimal form reads back as the channels |
| PaletteGenerator.ConvertFormatAsWritten | src/luminol/utils/palette_generator.py:8-67 | as written an unsupported format still raises ValueError |
| PaletteGenerator.ConvertFormatDiscrepancy | src/luminol/utils/palette_generator.py:15-67 | as written, unpacking a colour object for the rgb forms and reading `.hex6` of an RGBA both raise where the intended conversion succeeds, and hex6 comes out lower-case |
| PaletteGenerator.ConvertExamples | src/luminol/utils/palette_generator.py:93-102 | the documented `#FF8000` and `rgb(255, 128, 0)` forms, against the lower-case `#ff8000` as written |
| PaletteGenerator.RgbExample | src/luminol/utils/palette_generator.py:104 | the rgb_decimal form of (255, 128, 0) is `255, 128, 0` |
| PaletteGenerator.Remapped | src/luminol/utils/palette_generator.py:164-176 | a remap entry resolves exactly when it names a source present among the named colours, giving a translucent colour with alpha in [0, 1]; a missing `source` key or colour raises KeyError naming it |
| PaletteGenerator.NamedEntries | src/luminol/utils/palette_generator.py:151-161 | without remap every named colour is converted in order, and the format error is raised exactly when there is a colour to convert |
| PaletteGenerator.RemapEntries | src/luminol/utils/palette_generator.py:163-185 | with remap only the remapped colours are converted, in order; the first unresolvable entry's KeyError is raised before any format error |
| PaletteGenerator.CompileColorSyntax | src/luminol/utils/palette_generator.py:70-187 | one line per entry, each the syntax with `{color}` and then `{name}` replaced, and errors exactly when the entries fail |
| PaletteGenerator.NameThenColor | src/luminol/utils/palette_generator.py:157-159 | a syntax `pre{name}mid{color}post` yields `pre name mid colour post` |
| PaletteGenerator.ColorOnly | src/luminol/utils/palette_generator.py:157-159 | a syntax with only `{color}` yields the colour in its place |
| PaletteGenerator.NoBrace | src/luminol/utils/palette_generator.py:8-67 | no supported conversion writes a brace, so replacing `{color}` cannot create a `{name}` |
| PaletteGenerator.SingleColorLine | src/luminol/utils/palette_generator.py:151-161 | a palette of one colour compiles to one line |
| PaletteGenerator.ExampleLine | src/luminol/utils/palette_generator.py:93 | `${name}: {color};` with primary and `#FF8000` gives `$primary: #FF8000;` |
| PaletteGenerator.ColorSyntaxExample | src/luminol/utils/palette_generator.py:129-135 | the documented call on primary gives `["$primary: #FF8000;"]` |
| PaletteGenerator.CompileTemplate | src/luminol/utils/palette_generator.py:190-227 | the template compiles exactly when the entries convert |
| PaletteGenerator.FillAbsent | src/luminol/utils/palette_generator.py:197-204 | keys that do not occur leave the template unchanged |
| PaletteGenerator.FillOne | src/luminol/utils/palette_generator.py:199-202 | a key occurring once is replaced by the colour |
| PaletteGenerator.TemplateAgrees | src/luminol/utils/palette_generator.py:190-227 | a template compiles exactly when the colour syntax does, and a syntax without `placeholder` that does not occur leaves the template unchanged |
| PaletteGenerator.ReplaceAssembled | src/luminol/utils/palette_generator.py:202 | replacing one key in a text built from separated keys replaces exactly its slots |
| PaletteGenerator.FillStep | src/luminol/utils/palette_generator.py:198-202 | one loop step replaces entry k's key by its colour |
| PaletteGenerator.FillFrom | src/luminol/utils/palette_generator.py:198-204 | the loop from entry k on completes the substitution |
| PaletteGenerator.TemplateSubstitutes | src/luminol/utils/palette_generator.py:190-227 | a template made of text and the entries' keys, where no key can be mistaken for another, compiles to the same text with each key replaced by its colour |
| Paths.Components | src/luminol/utils/path.py:254-255 | `Path(p)` keeps only the non-empty parts other than `.` |
| Paths.BareNameIsFileName | src/luminol/utils/path.py:254-255 | a name without a slash is a file name |
| Paths.NestedName | src/luminol/utils/path.py:254-255 | `dir/name` is not a file name, and its parent is `dir` |
| TermColors.SgrRoundTrip | src/luminol/cli/term_colors.py:18-34 | an escape sequence's parameters read back from it |
| TermColors.Aliases | src/luminol/cli/term_colors.py:22-34 | INFO, WARNING, ERROR, SUCCESS and DEBUG are the bright codes 94, 93, 91, 92 and 90 |
| TermColors.TrueColorRoundTrip | src/luminol/cli/term_colors.py:36-44 | `rgb_to_ansi` and `bg_rgb` decode as the foreground and the background selection of their channels |
| TermColors.TrueColorFields | src/luminol/cli/term_colors.py:36-44 | the parameters are the layer, 2 and the three channels joined by `;` |
| TermColors.ColorizeRender | src/luminol/cli/term_colors.py:46-50 | `colorize` writes the optional bold code, the colour, the text and the reset |
| TermColors.ColorizeVisible | src/luminol/cli/term_colors.py:46-50 | bold or not, only the text is visible |
| TermColors.RenderVisible | src/luminol/cli/term_colors.py:46-50 | a terminal shows exactly the text of segments free of escape characters |
| TermColors.PreviewCodes | src/luminol/cli/term_colors.py:79-92 | the preview lines select the background with `bg_rgb`, the foreground with `rgb_to_ansi`, and then reset |
| TermColors.SampleShown | src/luminol/cli/term_colors.py:84 | of the sample only " Aa " shows |
| TermColors.PairLineVisible | src/luminol/cli/term_colors.py:79-85 | a pair line shows the label padded to 20, the sample and the two hex codes |
| TermColors.SingleLineVisible | src/luminol/cli/term_colors.py:87-92 | a single line shows the label padded to 20, a blank block and the hex code |
| Text.HexFieldRoundTrip | src/luminol/utils/data_types.py:14 | `{:02X}` of a channel is two digits reading back as the channel |
| Text.HexFieldDigits | src/luminol/utils/data_types.py:14 | those digits come from the upper- or lower-case alphabet |
| Text.DecimalRoundTrip | src/luminol/utils/palette_generator.py:38 | f"{n}" of an integer reads back as the integer |
| Text.SplitJoin | src/luminol/utils/palette_generator.py:38 | splitting undoes joining pieces that lack the separator |
| Text.ReplaceAbsent | src/luminol/utils/palette_generator.py:202 | `str.replace` with a non-empty pattern that does not occur changes nothing |
| Text.ReplaceHead | src/luminol/utils/palette_generator.py:202 | an occurrence at the front is replaced and the search resumes after it |
| Text.ReplaceOnce | src/luminol/utils/palette_generator.py:157-159 | a single occurrence is replaced in place |
| Text.ReplaceSelf | src/luminol/utils/palette_generator.py:202 | replacing a pattern by itself is the identity |
| Text.StripLeft | src/luminol/config/validate.py:138 | `lstrip` removes exactly the leading whitespace |
| Text.StripRight | src/luminol/config/validate.py:138 | `rstrip` removes exactly the trailing whitespace |
| Text.StripEmptyIff | src/luminol/config/validate.py:138 | a string strips to "" exactly when it is all whitespace |
| Text.PadRight | src/luminol/cli/term_colors.py:85 | `f"{s:20}"` left-aligns s and pads it with spaces to width 20 |
| Transformation.HsvOfColour | src/luminol/color/transformation.py:22 | a colour's HSV components are in range, convert back to the colour, and a grey has saturation 0 |
| Transformation.HsvExtremesOfColour | src/luminol/color/transformation.py:22 | V is the largest channel and `v * (1 - s)` the smallest |
| Transformation.FromHsvExtremes | src/luminol/color/transformation.py:24-25 | converting back, the largest channel is `round(v * 255)` and the smallest `round(v * (1 - s) * 255)` |
| Transformation.FromHsvGrey | src/luminol/color/transformation.py:24-25 | with saturation 0 every channel is `round(v * 255)` |
| Transformation.SaturateIdentity | src/luminol/color/transformation.py:11-25 | factor 1 changes nothing, and a grey stays as it is whatever the factor |
| Transformation.SaturateToGrey | src/luminol/color/transformation.py:11-25 | factor 0 turns a colour into the grey of its largest channel |
| Transformation.SaturateKeepsMax | src/luminol/color/transformation.py:11-25 | saturating never moves the largest channel |
| Transformation.BrightenShape | src/luminol/color/transformation.py:28-42 | factor 1 changes nothing, factor 0 gives black, and a grey stays grey |
| Transformation.BrightenMonotone | src/luminol/color/transformation.py:28-42 | a factor of at least 1 never lowers the largest channel, and one in [0, 1] never raises it |
| Transformation.ShiftHueFullTurns | src/luminol/color/transformation.py:45-60 | a shift by whole turns leaves the colour unchanged |
| Transformation.WholeDegreesFullTurns | src/luminol/color/transformation.py:45-60 | the same for an integer shift, as the `hue` option is |
| Transformation.ShiftHueKeepsExtremes | src/luminol/color/transformation.py:45-60 | shifting the hue keeps the largest and the smallest channel |
| Transformation.ContrastChannel | src/luminol/color/transformation.py:63-73 | each adjusted channel lies in 0..255 |
| Transformation.AdjustContrast | src/luminol/color/transformation.py:63-73 | all three adjusted channels lie in 0..255 |
| Transformation.ContrastChannelShape | src/luminol/color/transformation.py:63-73 | factor 1 keeps a channel, factor 0 sends every channel to 128, and a non-negative factor keeps the channels' order |
| Transformation.Warmth | src/luminol/color/transformation.py:78 | the temperature is clamped to [-1, 1] |
| Transformation.ClampRound | src/luminol/color/transformation.py:87-89 | clamping then rounding gives a channel in 0..255 |
| Transformation.AdjustTemperature | src/luminol/color/transformation.py:76-90 | green is left alone and red and blue stay in 0..255 |
| Transformation.TemperatureNeutral | src/luminol/color/transformation.py:76-90 | value 0 changes nothing, and values beyond 100 in either direction act as 100 |
| Transformation.TemperatureDirection | src/luminol/color/transformation.py:79-85 | a warm value never lowers red nor raises blue, and a cool one the reverse |
| Transformation.Raised | src/luminol/color/transformation.py:80-84 | moving a channel up by half its headroom times t never lowers it |
| Transformation.Lowered | src/luminol/color/transformation.py:81-85 | taking 30% of a channel times t off never raises it |
| Transformation.TransformColor | src/luminol/color/transformation.py:93-129 | the alpha is the opacity clamped to [0, 1], and 1.0 when none is given |
| Transformation.TransformIdentities | src/luminol/color/transformation.py:93-129 | no transformation, whole-turn hue shifts, saturation and brightness 1, and contrast 1 with temperature 0 each leave the colour unchanged |
| TtyReload.CodeRoundTrip | src/luminol/core/tty_reload.py:21-39 | each target's OSC code (11, 10, 12, or 4 followed by the slot number) reads back as that target |
| TtyReload.OscRoundTrip | src/luminol/core/tty_reload.py:23-39 | one request's escape sequence ends in its only BEL, and the text before the BEL reads back as the request's target and colour |
| TtyReload.ParseEmit | src/luminol/core/tty_reload.py:19-41 | reading back a concatenation of request sequences gives the requests in the same order |
| TtyReload.SequenceRoundTrip | src/luminol/core/tty_reload.py:9-41 | the sequence `tty_color_sequence` builds reads back as exactly the theme's requests |
| TtyReload.RequestsSpec | src/luminol/core/tty_reload.py:21-39 | the requests come in the order background, foreground, cursor, then `ansi-0` to `ansi-15`; each one carries the theme's colour for its target; every target the theme supplies is among them |
| TtyReload.RequestsEmpty | src/luminol/core/tty_reload.py:19-41 | there is no request exactly when the theme supplies no target |
| TtyReload.NothingWanted | src/luminol/core/tty_reload.py:22-39 | a theme supplies no target exactly when it has none of the keys background, foreground, cursor or `ansi-0` to `ansi-15`; the cursor falls back to the foreground |
| TtyReload.EmptySequence | src/luminol/core/tty_reload.py:9-41 | the sequence is empty exactly when the theme has none of the nineteen keys |
| TtyReload.CompleteRequests | src/luminol/core/tty_reload.py:19-41 | a theme with all nineteen keys gives nineteen requests, one per target, in target order |
| TtyReload.CompleteSequence | src/luminol/core/tty_reload.py:9-41 | the sequence of a complete theme reads back as nineteen requests in target order |
| TtyReload.PywalColorsStable | src/luminol/core/tty_reload.py:52-56 | the sort is stable: for every value of r² + g² + b², the colours with that value keep the order they had among the first eight |
| TtyReload.PywalColorsSorted | src/luminol/core/tty_reload.py:52-56 | the pywal colours are the first eight extracted colours (all of them when fewer), rearranged so that r² + g² + b² never decreases |
| TtyReload.PywalOutcome | src/luminol/core/tty_reload.py:44-80 | the pywal theme exists exactly when bg-primary, text-primary, accent-primary and bg-secondary are assigned and at least eight colours were extracted; otherwise it is the KeyError or IndexError of the first failing step, in source order |
| TtyReload.PywalLayout | src/luminol/core/tty_reload.py:58-80 | the pywal theme has the nineteen distinct keys; background and `ansi-0` are bg-primary, foreground, `ansi-7` and `ansi-15` are text-primary, the cursor is accent-primary, `ansi-8` is bg-secondary, and slots 1-6 and 9-14 both hold sorted colour i |
| TtyReload.OverriddenLayout | src/luminol/core/tty_reload.py:75-78 | the four slot overrides keep the key list, set `ansi-0`, `ansi-7`, `ansi-8` and `ansi-15`, and change nothing else |
| TtyReload.WithPaletteAppends | src/luminol/core/tty_reload.py:67-71 | the two palette loops write `ansi-0` to `ansi-15` as new keys, in index order |
| TtyReload.PywalComplete | src/luminol/core/tty_reload.py:44-80 | a pywal theme has all nineteen keys |
| TtyReload.TtyColorsDefaultAsWritten | src/luminol/core/tty_reload.py:90 | as written the default style always fails with the TypeError raised by `generate_ansi` |
| TtyReload.DefaultOutcome | src/luminol/core/tty_reload.py:83-97 | with a working `generate_ansi`, the default theme exists exactly when the palette is generated and text-primary is assigned; a palette error passes through unchanged |
| TtyReload.DefaultLayout | src/luminol/core/tty_reload.py:90-97 | the default theme is the sixteen generated colours as `ansi-0` to `ansi-15`, then background = bg-primary, foreground = cursor = text-primary, nineteen distinct keys in all |
| TtyReload.DefaultComplete | src/luminol/core/tty_reload.py:83-97 | a default theme has all nineteen keys |
| TtyReload.ReloadStyle | src/luminol/core/tty_reload.py:116-121 | only the styles "default" and "pywal" give a sequence; any other style is a ValueError |
| TtyReload.ReloadComplete | src/luminol/core/tty_reload.py:110-123 | whenever a sequence is produced it reads back as nineteen requests in target order |

## Left out

- Gamma.PowerCurves: the sRGB power curves `x ** 2.4` and `x ** (1 / 2.4)` are a parameter `pc` constrained by `Gamma.Faithful` (range, monotonicity, mutual inverse on [0, 1], and two numeric facts at the knee of the curve), not bit-exact floating-point powers; every member using luma takes `pc`.
- Floating point: Python floats and numpy float32 are exact reals throughout, so no rounding error, overflow or NaN is modelled; `Extraction` in particular computes centroids, distances and coverages in exact arithmetic instead of float32.
- Extraction.DominanceOrder: numpy's default `argsort` is not a stable sort, so the order of clusters with equal counts is not fixed by the source; the model picks the descending-index order that `argsort(counts)[::-1]` gives when the sort is stable.
- Extraction: image decoding, thumbnailing, random pixel sampling and k-means++ seeding are left out; the sampled pixels come from a `pick` function and the initial centroids from a `seed` function, both parameters.
- Extraction.KMeans: the loop runs at most `rounds` times (the preset's iteration count) and stops early on `np.allclose`, whose tolerances are applied to exact reals rather than float32.
- ColorAssign.AssignColor: `_assign_bg` returns two backgrounds, so the third (`bgTertiary`) is a parameter; `_assign_ansi_colors` does not exist in `color/assign_logic.py`, so the ANSI list is a parameter as well; the import of `_assign_accent` is read as the existing `_assign_accents`, and its call at line 79 is read with the theme passed as `theme`, the parameter `_assign_accents` has, instead of the keyword `theme_type` it does not accept.
- AssignLogic.AssignBg: requires two colours for the dark theme and one for the light theme, where Python would raise IndexError or ValueError on fewer; `assign_color` always passes at least eight.
- AssignAnsi.GenerateAnsi: the vibrant colour comes from the one-argument `_select_vibrant_color(color_data)` (its RGB half), and the dye hue is passed in degrees; both correct the source (see Findings).
- PaletteGenerator.ConvertFormat: follows the namedtuples of `utils/data_types.py` (upper-case hex, tuple unpacking, `hex6`), which the function's own code requires; the core classes it imports behave differently (see Findings).
- PaletteGenerator.AlphaText: Python's `str` of a float alpha is a parameter `showFloat`, since float printing is not modelled.
- TtyReload.PywalColors: `tty_colors_pywal` sorts the caller's `color_data` list in place; the model returns the sorted copy and does not model the caller's list being changed.
- TtyReload: finding the terminals (`get_ttys`), writing the sequence to them and to the sequence file, and the permission errors around those writes are I/O and are left out; the model stops at the sequence.
- Logging and printing: every `logging` call, and the `print` output of `decide_theme` and the preview helpers, are dropped, because they do not affect any returned value.
- Toml: reading and decoding the TOML file (`load_config`) is left out; a configuration is an already-decoded `Toml.Value`, and TOML dates, NaN and the infinities are not among its cases, so a setting such as `saturation = inf`, which the unbounded maximum of `validate.py:49-55` accepts, cannot be written.
- ConfigValidate.Host: path expansion (`~` and `$VAR`), `get_luminol_dir()`, `Path.exists`, `os.access(_, W_OK)` and `Path.is_file` are fields of a `Host` record, not real file-system lookups.
- ColorSys: the standard library's `colorsys` conversions are modelled exactly over the reals from their published algorithm; that module is not part of this model's sources.
- `core/engine.py`, the CLI, the daemons, system actions and file utilities are orchestration and I/O and are not part of this model.

## Findings

| source | as written | input that shows it | evidently intended | confidence | as-written member | corrected member |
|---|---|---|---|---|---|---|
| src/luminol/color/color_assign.py:4-79 | the module imports `_assign_accent` and `_assign_ansi_colors` (lines 4-10), which `assign_logic.py` does not define, so importing it raises ImportError before any call; with the imports read as the existing `_assign_accents`, line 75 unpacks the pair `_assign_bg` returns into three backgrounds (ValueError), and line 79 would pass the keyword `theme_type`, which `_assign_accents` does not accept (TypeError) | importing the module: ImportError; with the imports resolved, any eight valid colours with theme type "dark": ValueError at line 75 | the module imports, a third background is available, `_assign_accents` gets the theme, and `assign_color` returns the theme dictionary | not executed | ColorAssign.AssignColorAsWritten, ColorAssign.AsWrittenNeverAssigns | ColorAssign.AssignColor, ColorAssign.CorrectedAssigns |
| src/luminol/utils/palette_generator.py:15-66 | the core `RGB`/`RGBA` classes are used: RGB hex is lower case, RGBA has no `hex6`, and neither unpacks into channels | `RGB(255, 128, 0)` with format "hex6" gives `#ff8000`, and with format "rgb" raises TypeError | the documented `#FF8000` and `rgb(255, 128, 0)` of the namedtuple colours | not executed | PaletteGenerator.ConvertFormatAsWritten, PaletteGenerator.ConvertFormatDiscrepancy | PaletteGenerator.ConvertFormat, PaletteGenerator.HexRoundTrip |
| src/luminol/color/ansi_colors/assign_ansi.py:84 | `_select_vibrant_color(color_data, "dark")` passes two arguments to a one-parameter function and uses the returned pair as a colour | any call of `generate_ansi`: TypeError | the one-argument call, with the RGB half of its result as the accent | not executed | AssignAnsi.GenerateAnsiAsWritten | AssignAnsi.GenerateAnsi, AssignAnsi.GenerateAnsiLayout |
| src/luminol/color/ansi_colors/assign_ansi.py:92 | `dye_h=accent.hsl.h` passes a fraction of a turn, and `python_4bit.py:195` divides it by 360 again | a cyan accent `RGB(0, 255, 255)` (hue 0.5) gives the dye `RGB(255, 2, 0)` | the accent's hue in degrees, so the dye is the accent itself | not executed | AssignAnsi.DyeAsWritten, AssignAnsi.AsWrittenDyeIsNotAccent | AssignAnsi.DyeCorrected, AssignAnsi.CorrectedDyeIsAccent |
| src/luminol/core/tty_reload.py:90 | `generate_ansi(color_data, assigned_dict)` inherits the TypeError of the call at `assign_ansi.py:84` | style "default" with any inputs: TypeError, so no default terminal theme is produced | the default theme of sixteen generated colours plus background, foreground and cursor | not executed | TtyReload.TtyColorsDefaultAsWritten | TtyReload.TtyColorsDefault, TtyReload.DefaultLayout |
